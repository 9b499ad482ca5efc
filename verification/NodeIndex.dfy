/**
  The node index of lib/fuse.c: the two hash tables and the reference-counted
  tree, changed in place by the operations that find, name, rename and forget
  nodes.
 */
module NodeIndex {
  import opened Wrappers
  import opened PathTree
  import opened NodeRefs
  import opened NodeMoves
  import NT = NodeTable

  datatype Errno = OK | EBUSY | ENOMEM

  const UNKNOWN_INO: nat := 0xffff_ffff

  /** The mixing of id_hash: a 32-bit product. */
  function IdHash(ino: NodeId): nat
  {
    ((ino % 0x1_0000_0000) * 2654435761) % 0x1_0000_0000
  }

  /** The mixing of name_hash: 64-bit, one character after the other. */
  function NameHash(at: Link): nat
    decreases |at.name|
  {
    if at.name == "" then at.parent % 0x1_0000_0000_0000_0000
    else
      var k := |at.name| - 1;
      (NameHash(Link(at.parent, at.name[..k])) * 31 + at.name[k] as int) % 0x1_0000_0000_0000_0000
  }

  /** The id table knows exactly the live nodes, each under its own id. */
  ghost predicate KnowsAll(ids: map<NodeId, nat>, up: map<NodeId, seq<NodeId>>)
  {
    ids.Keys == up.Keys && forall n :: n in ids ==> ids[n] == n
  }

  lemma KnowsWithout(ids: map<NodeId, nat>, up: map<NodeId, seq<NodeId>>, n: NodeId)
    requires KnowsAll(ids, up)
    ensures KnowsAll(ids - {n}, up - {n})
  {
    assert (up - {n}).Keys == up.Keys - {n};
  }

  /** The root alone, looked up once. */
  function InitialState(): Refs
  {
    Refs(Tree(map[], map[], map[ROOT := [ROOT]]), map[ROOT := 1], map[ROOT := 1], multiset{})
  }

  lemma KnowsSame(ids: map<NodeId, nat>, up: map<NodeId, seq<NodeId>>, up': map<NodeId, seq<NodeId>>)
    requires KnowsAll(ids, up) && up'.Keys == up.Keys
    ensures KnowsAll(ids, up')
  {
  }

  // ----- ids -----

  /** How many different values the counter of next_id has. */
  const IDS: nat := 0x1_0000_0000

  /** An id that may be given to a new node. */
  predicate Usable(up: map<NodeId, seq<NodeId>>, c: nat)
  {
    0 < c < UNKNOWN_INO && c !in up
  }

  /** Generation and counter as one number, which only grows. */
  function Ticks(generation: nat, ctr: nat): nat
  {
    generation * IDS + ctr
  }

  /** No id is usable that the counter passes strictly between two moments. */
  ghost predicate NoneBetween(up: map<NodeId, seq<NodeId>>, before: nat, after: nat)
  {
    forall k {:trigger Usable(up, k % IDS)} :: before < k < after ==> !Usable(up, k % IDS)
  }

  /** next_id has counted on to the first usable id. */
  ghost predicate NextAfter(up: map<NodeId, seq<NodeId>>, g: nat, c: nat, g': nat, c': nat)
  {
    && Usable(up, c') && Ticks(g, c) < Ticks(g', c') && NoneBetween(up, Ticks(g, c), Ticks(g', c'))
  }

  lemma TicksApart(g: nat, c: nat)
    requires c < IDS
    ensures Ticks(g, c) % IDS == c
  {
  }

  lemma PassedOne(up: map<NodeId, seq<NodeId>>, before: nat, g: nat, c: nat)
    requires c < IDS && NoneBetween(up, before, Ticks(g, c))
    ensures !Usable(up, c) ==> NoneBetween(up, before, Ticks(g, c) + 1)
  {
    TicksApart(g, c);
  }

  class NodeIndex {
    const idTable: NT.NodeTable<NodeId>
    const nameTable: NT.NodeTable<Link>
    const remember: bool
    /** Growing a table never fails. */
    ghost const ample: bool
    var link: map<NodeId, Link>
    var refctr: map<NodeId, int>
    var nlookup: map<NodeId, nat>
    /** The lock words, which the path locks change; that of a node that is gone means nothing. */
    var treelock: map<NodeId, int>
    var ctr: nat
    var generation: nat
    ghost var up: map<NodeId, seq<NodeId>>
    ghost var pins: multiset<NodeId>

    ghost function State(): Refs
      reads this`link, this`refctr, this`nlookup, this`up, this`pins, nameTable`contents
    {
      Refs(Tree(link, nameTable.contents, up), refctr, nlookup, pins)
    }

    ghost predicate Tables(pending: nat)
      reads idTable, nameTable
    {
      && idTable as object != nameTable && idTable.Valid(0) == true && nameTable.Valid(pending) == true
      && (ample ==> idTable.Light() == true && nameTable.Light() == true)
    }

    /** Both tables hold exactly the live nodes, under their ids and under their names. */
    ghost predicate TablesOk(pending: nat)
      reads this`up, idTable, nameTable
    {
      Tables(pending) == true && KnowsAll(idTable.contents, up) == true
    }

    ghost predicate Valid()
      reads this`link, this`refctr, this`nlookup, this`up, this`pins, idTable, nameTable
    {
      TablesOk(0) && RefsOk(State())
    }

    /** fuse_new: the root is there from the start, and the kernel holds it */
    constructor (remember: bool, ghost ample: bool)
      ensures Valid() && fresh(idTable) && fresh(nameTable) && ctr == 0 && generation == 0
      ensures State() == InitialState() && treelock == map[ROOT := 0]
    {
      this.remember, this.ample := remember, ample;
      idTable := new NT.NodeTable(IdHash);
      nameTable := new NT.NodeTable(NameHash);
      link, refctr, nlookup := map[], map[ROOT := 1], map[ROOT := 1];
      treelock, ctr, generation := map[ROOT := 0], 0, 0;
      up, pins := map[ROOT := [ROOT]], multiset{};
      new;
      EnterRoot();
    }

    method EnterRoot()
      requires idTable as object != nameTable && idTable.Valid(0) && nameTable.Valid(0)
      requires idTable.Light() && nameTable.Light() && idTable.contents == map[]
      requires State() == InitialState()
      modifies idTable
      ensures Valid()
    {
      idTable.Insert(ROOT, ROOT, true);
    }

    /** Takes an entry out of the name table. */
    method UnlinkEntry(at: Link, w: NodeId, ghost pending: nat)
      requires Tables(pending) && at in nameTable.contents && nameTable.contents[at] == w
      modifies nameTable
      ensures Tables(pending + 1) && (old(TablesOk(pending)) ==> TablesOk(pending + 1))
      ensures nameTable.contents == old(nameTable.contents) - {at} && idTable.contents == old(idTable.contents)
    {
      nameTable.Unlink(at, w, pending);
    }

    /** The start of unhash_name: w leaves its chain and loses its name. */
    method UnlinkName(w: NodeId, ghost pending: nat)
      requires TablesOk(pending) && w in link && link[w] in nameTable.contents
        && nameTable.contents[link[w]] == w
      modifies this`link, this`up, this`pins, nameTable
      ensures TablesOk(pending + 1)
      ensures old(w in State().tree.link) && State() == Unname(old(State()), w)
    {
      UnlinkEntry(link[w], w, pending);
      LoseLink(w, pending + 1);
    }

    /** name and parent of w are NULL now; a decrement of the parent is owed. */
    method LoseLink(w: NodeId, ghost pending: nat)
      requires TablesOk(pending) && w in link
      modifies this`link, this`up, this`pins
      ensures TablesOk(pending)
      ensures old(w in State().tree.link) && State() == Loose(old(State()), w)
    {
      KnowsSame(idTable.contents, up, CutAll(up, w));
      pins := pins + multiset{link[w].parent};
      link := link - {w};
      up := CutAll(up, w);
    }

    /** The end of unhash_name: the entry is no longer counted. */
    method UncountName(ghost pending: nat)
      requires TablesOk(pending + 1)
      modifies nameTable
      ensures TablesOk(pending)
      ensures State() == old(State())
    {
      assert idTable as object != nameTable;
      nameTable.DropUse(pending);
    }

    /** unhash_id */
    method UnhashId(n: NodeId, ghost pending: nat)
      requires Tables(pending) && n in idTable.contents && idTable.contents[n] == n
      modifies idTable
      ensures Tables(pending)
      ensures idTable.contents == old(idTable.contents) - {n} && nameTable.contents == old(nameTable.contents)
    {
      idTable.Unlink(n, n, 0);
      idTable.DropUse(0);
    }

    /** The end of delete_node: unhash_id and free_node. */
    method FreeNode(n: NodeId, ghost pending: nat)
      requires TablesOk(pending) && n in up
      modifies this`refctr, this`nlookup, this`up, idTable
      ensures TablesOk(pending)
      ensures State() == Drop(old(State()), n)
    {
      KnowsWithout(idTable.contents, up, n);
      UnhashId(n, pending);
      refctr := refctr - {n};
      nlookup := nlookup - {n};
      up := up - {n};
    }

    /** unhash_name: w leaves its chain, then its parent loses a reference, and only then is the entry uncounted. */
    method UnhashName(w: NodeId, ghost dead: set<NodeId>, ghost pending: nat)
      requires TablesOk(pending) && WellFormed(State().tree) && w in up
      requires w in link ==> RefsOkBut(Unname(State(), w), dead) && link[w].parent in Unname(State(), w).pins
      requires w in link ==> UnlockedAbove(State(), w, treelock)
      modifies this`link, this`refctr, this`nlookup, this`up, this`pins, idTable, nameTable
      ensures TablesOk(pending)
      ensures w !in old(link) ==> State() == old(State())
      ensures w in old(link) ==> old(w in State().tree.link) && old(link[w].parent) in Unname(old(State()), w).tree.up
                                 && WellFormed(Unname(old(State()), w).tree)
                                 && Unname(old(State()), w).refctr.Keys == Unname(old(State()), w).tree.up.Keys
                                 && State() == Unref(Unname(old(State()), w), old(link[w].parent))
      decreases |up[w]|, 0
    {
      if w in link {
        var p := link[w].parent;
        WalkShrinks(State().tree, w);
        NameEntry(State().tree, w);
        UnlinkName(w, pending);
        UnrefNode(p, dead, pending + 1);
        UncountName(pending);
      }
    }

    /** The decrement in unref_node. */
    method TakeReference(n: NodeId)
      requires n in refctr
      modifies this`refctr, this`pins
      ensures State() == Decrement(old(State()), n)
    {
      refctr := refctr[n := refctr[n] - 1];
      pins := pins - multiset{n};
    }

    /** unref_node */
    method UnrefNode(n: NodeId, ghost dead: set<NodeId>, ghost pending: nat)
      requires TablesOk(pending) && RefsOkBut(State(), dead) && n in pins && n in up
      requires UnlockedFrom(State(), n, treelock)
      modifies this`link, this`refctr, this`nlookup, this`up, this`pins, idTable, nameTable
      ensures TablesOk(pending)
      ensures State() == Unref(old(State()), n)
      decreases |up[n]|, 2
    {
      ghost var s := State();
      OwedReference(s, dead, n);
      assert refctr[n] > 0;
      TakeReference(n);
      if refctr[n] == 0 {
        UnlockedFirst(s, n, treelock);
        DeleteNode(n, s, dead, pending);
      }
    }

    /** delete_node: only reached with no reference left, and unlocked */
    method DeleteNode(n: NodeId, ghost s: Refs, ghost dead: set<NodeId>, ghost pending: nat)
      requires TablesOk(pending) && RefsOkBut(s, dead) && n in s.pins && n in s.refctr
        && s.refctr[n] == 1
      requires n in s.tree.up && State() == Decrement(s, n) && UnlockedFrom(s, n, treelock)
      requires n in treelock && treelock[n] == 0
      modifies this`link, this`refctr, this`nlookup, this`up, this`pins, idTable, nameTable
      ensures TablesOk(pending)
      ensures State() == Unref(s, n)
      decreases |up[n]|, 1
    {
      assert treelock[n] == 0;
      DeleteFacts(s, dead, n);
      UnlockedOnwards(s, dead, n, treelock);
      UnhashName(n, dead + {n}, pending);
      FreeNode(n, pending);
    }

    // ----- looking up -----

    /** get_node_nocheck */
    method GetNode(n: NodeId) returns (r: Option<NodeId>)
      requires TablesOk(0)
      ensures r == if n in up then Some(n) else None
    {
      assert n in idTable.contents.Keys <==> n in up.Keys;
      r := idTable.Lookup(n);
    }

    /** lookup_node */
    method LookupNode(dir: NodeId, name: string) returns (r: Option<NodeId>)
      requires TablesOk(0)
      ensures r == PathTree.Lookup(State().tree, dir, name)
    {
      r := nameTable.Lookup(Link(dir, name));
    }

    // ----- new ids -----

    method CountOn()
      requires ctr < IDS
      modifies this`ctr, this`generation
      ensures ctr < IDS && Ticks(generation, ctr) == old(Ticks(generation, ctr)) + 1
      ensures ctr == if old(ctr) + 1 == IDS then 0 else old(ctr) + 1
    {
      ctr := if ctr + 1 == IDS then 0 else ctr + 1;
      if ctr == 0 {
        generation := generation + 1;
      }
    }

    /** next_id: counts on, around 32 bits, to the first id that is neither special nor in use; free is such an id. */
    method NextId(ghost free: nat) returns (id: nat)
      requires TablesOk(0) && Usable(up, free) && ctr < IDS
      modifies this`ctr, this`generation
      ensures id == ctr && NextAfter(up, old(generation), old(ctr), generation, ctr)
    {
      var found := false;
      while !found
        invariant ctr < IDS && Ticks(old(generation), old(ctr)) <= Ticks(generation, ctr)
        invariant NoneBetween(up, Ticks(old(generation), old(ctr)),
                              Ticks(generation, ctr) + if found then 0 else 1)
        invariant found ==> Usable(up, ctr) && Ticks(old(generation), old(ctr)) < Ticks(generation, ctr)
        decreases !found, if ctr < free then free - ctr else free + IDS - ctr
      {
        CountOn();
        PassedOne(up, Ticks(old(generation), old(ctr)), generation, ctr);
        if ctr != 0 && ctr != UNKNOWN_INO {
          var r := GetNode(ctr);
          found := r.None?;
        }
      }
      id := ctr;
    }

    // ----- finding and making nodes -----

    /** The table part of hash_name and hash_id; memory says whether a full table can grow. */
    method InsertName(at: Link, w: NodeId, memory: bool)
      requires ample ==> memory
      requires Tables(0) && at !in nameTable.contents
      modifies nameTable
      ensures Tables(0)
      ensures nameTable.contents == old(nameTable.contents)[at := w] && idTable.contents == old(idTable.contents)
    {
      nameTable.Insert(at, w, memory);
    }

    method InsertId(n: NodeId, memory: bool)
      requires ample ==> memory
      requires Tables(0) && n !in idTable.contents
      modifies idTable
      ensures Tables(0)
      ensures idTable.contents == old(idTable.contents)[n := n] && nameTable.contents == old(nameTable.contents)
    {
      idTable.Insert(n, n, memory);
    }

    /** hash_name: w gets its parent and name, and the parent one reference more. */
    method HashName(w: NodeId, at: Link, memory: bool)
      requires ample ==> memory
      requires TablesOk(0) && at !in nameTable.contents && at.parent in up && at.parent in refctr
      modifies this`link, this`refctr, this`up, nameTable
      ensures TablesOk(0)
      ensures old(at.parent in State().tree.up && at.parent in State().refctr) && State() == Named(old(State()), w, at)
    {
      InsertName(at, w, memory);
      GainLink(w, at);
    }

    /** name and parent of w are set, and the parent has one reference more. */
    method GainLink(w: NodeId, at: Link)
      requires TablesOk(0) && at.parent in up && at.parent in refctr
      requires at in nameTable.contents && nameTable.contents[at] == w
      modifies this`link, this`refctr, this`up
      ensures TablesOk(0)
      ensures old(at.parent in State().tree.up && at.parent in State().refctr) && State() == Named(old(State()), w, at)
    {
      ghost var grafted := map n | n in up :: Graft(up[n], w, up[at.parent]);
      assert grafted.Keys == up.Keys;
      KnowsSame(idTable.contents, up, grafted);
      refctr := refctr[at.parent := refctr[at.parent] + 1];
      link := link[w := at];
      up := grafted;
    }

    /** inc_nlookup */
    method IncNlookup(n: NodeId)
      requires n in refctr && n in nlookup
      modifies this`refctr, this`nlookup
      ensures State() == IncLookup(old(State()), n)
    {
      if nlookup[n] == 0 {
        refctr := refctr[n := refctr[n] + 1];
      }
      nlookup := nlookup[n := nlookup[n] + 1];
    }

    /** alloc_node, and the id the node is given: it is in no table yet. */
    method AllocNode(n: NodeId)
      modifies this`refctr, this`nlookup, this`treelock
      ensures State() == Blank(old(State()), n) && treelock == old(treelock)[n := 0]
    {
      treelock := treelock[n := 0];
      refctr := refctr[n := 0];
      nlookup := nlookup[n := 0];
    }

    /** hash_id, for a node that has its name already */
    method HashId(n: NodeId, ghost p: NodeId, memory: bool)
      requires ample ==> memory
      requires TablesOk(0) && n !in up && p in up
      modifies this`up, idTable
      ensures TablesOk(0)
      ensures old(p in State().tree.up) && State() == Entered(old(State()), n, p)
    {
      assert n !in idTable.contents.Keys;
      InsertId(n, memory);
      up := up[n := [n] + up[p]];
    }

    /** The lookups a new node starts with: the cache keeps one of its own if it remembers nodes. */
    function FirstLookups(): nat
    {
      if remember then 2 else 1
    }

    /** find_node, for a new node: what happens before it has its name ... */
    method SetUp(n: NodeId)
      requires TablesOk(0)
      modifies this`refctr, this`nlookup, this`treelock
      ensures TablesOk(0) && State() == Allocated(old(State()), n, remember)
      ensures treelock == old(treelock)[n := 0]
    {
      AllocNode(n);
      if remember {
        IncNlookup(n);
      }
    }

    /** ... and the rest. */
    method Enter(n: NodeId, at: Link, memory: bool, ghost s: Refs)
      requires ample ==> memory
      requires TablesOk(0) && State() == s && Enterable(s, n, at) == true
      modifies this`link, this`refctr, this`nlookup, this`up, idTable, nameTable
      ensures TablesOk(0)
      ensures State() == IncLookup(Entered(Named(s, n, at), n, at.parent), n)
    {
      HashName(n, at, memory);
      HashId(n, at.parent, memory);
      IncNlookup(n);
    }

    /** The part of find_node that makes a node. */
    method MakeNode(n: NodeId, at: Link, memory: bool, ghost s: Refs)
      requires ample ==> memory
      requires TablesOk(0) && State() == s && WellFormed(s.tree) == true
      requires n !in s.tree.up && at !in s.tree.index && at.parent in s.tree.up && at.parent in s.refctr
        && at.parent != n
      modifies this`link, this`refctr, this`nlookup, this`treelock, this`up, idTable, nameTable
      ensures TablesOk(0) && treelock == old(treelock)[n := 0]
      ensures State() == Created(s, n, at, FirstLookups())
    {
      ghost var s1 := Allocated(s, n, remember);
      AllocatedEnterable(s, n, at, remember);
      MakeSteps(s, n, at, remember);
      assert Created(s, n, at, FirstLookups()) == IncLookup(Entered(Named(s1, n, at), n, at.parent), n);
      SetUp(n);
      Enter(n, at, memory, s1);
    }

    /** The branch of find_node for a name that is not known. */
    method FindNew(at: Link, alloc: bool, keeps: bool, memory: bool, ghost free: nat) returns (r: Option<NodeId>)
      requires ample ==> memory
      requires Valid() && at.parent in up && at.parent in refctr && at !in nameTable.contents
      requires Usable(up, free) && ctr < IDS
      modifies this, idTable, nameTable
      ensures Valid()
      ensures r == if alloc && keeps then Some(ctr) else None
      ensures r.None? ==> State() == old(State()) && treelock == old(treelock)
      ensures r.Some? ==> IsCreated(old(State()), ctr, at, FirstLookups(), State())
                          && treelock == old(treelock)[ctr := 0]
      ensures if alloc then NextAfter(old(up), old(generation), old(ctr), generation, ctr) == true
              else generation == old(generation) && ctr == old(ctr)
    {
      if !alloc {
        return None;
      }
      var n := NextId(free);
      if !keeps {
        return None;
      }
      ghost var s := State();
      CreatedKeeps(s, n, at, FirstLookups());
      MakeNode(n, at, memory, s);
      assert State() == Created(s, n, at, FirstLookups());
      return Some(n);
    }

    /** The branch of find_node for a node that is there. */
    method FindKnown(n: NodeId, ghost parent: NodeId, ghost name: Option<string>)
      requires Valid() && parent in up
      requires if name.None? then n == parent else PathTree.Lookup(State().tree, parent, name.value) == Some(n)
      modifies this`refctr, this`nlookup
      ensures Valid()
      ensures Found(old(State()), parent, name, FirstLookups(), Some(n), State())
    {
      FoundIsLive(State(), parent, name, n);
      IncLookupKeeps(State(), n);
      IncNlookup(n);
    }

    /** The start of find_node. */
    method Seek(parent: NodeId, name: Option<string>) returns (n: Option<NodeId>)
      requires TablesOk(0) && parent in up
      ensures n == if name.None? then Some(parent) else PathTree.Lookup(State().tree, parent, name.value)
    {
      if name.None? {
        n := GetNode(parent);
      } else {
        n := LookupNode(parent, name.value);
      }
    }

    /**
      find_node: the named child of parent (or parent itself), looked up once
      more; made if it is not there. alloc and keeps say whether the node and
      its name can be allocated, memory whether a full table can grow.
     */
    method FindNode(parent: NodeId, name: Option<string>, alloc: bool, keeps: bool, memory: bool, ghost free: nat)
      returns (r: Option<NodeId>)
      requires ample ==> memory
      requires Valid() && parent in up && Usable(up, free) && ctr < IDS
      modifies this, idTable, nameTable
      ensures Valid()
      ensures Found(old(State()), parent, name, FirstLookups(), r, State()) == true
      ensures r.None? ==> !(alloc && keeps)
      ensures if Unknown(old(State()), parent, name) && alloc
              then NextAfter(old(up), old(generation), old(ctr), generation, ctr) == true
                   && r == if keeps then Some(ctr) else None
              else generation == old(generation) && ctr == old(ctr)
      ensures treelock == if r.Some? && Unknown(old(State()), parent, name) then old(treelock)[r.value := 0]
                          else old(treelock)
    {
      ghost var s := State();
      var n := Seek(parent, name);
      if n.None? {
        assert parent in refctr.Keys;
        r := FindNew(Link(parent, name.value), alloc, keeps, memory, free);
        assert Unknown(s, parent, name);
      } else {
        assert !Unknown(s, parent, name);
        FindKnown(n.value, parent, name);
        r := n;
      }
    }

    // ----- giving nodes up -----

    /** The lookups of n go down to left; if that was the last one, the kernel's reference is owed. */
    method SetLookups(n: NodeId, left: nat)
      requires TablesOk(0) && n in nlookup
      modifies this`nlookup, this`pins
      ensures TablesOk(0)
      ensures State() == Left(old(State()), n, left)
    {
      nlookup := nlookup[n := left];
      pins := if left == 0 then pins + multiset{n} else pins;
    }

    /** A reference that is owed is dropped. */
    method DropOwed(n: NodeId, ghost s: Refs)
      requires TablesOk(0) && State() == s && RefsOk(s) && n in s.pins && n in s.tree.up
      requires UnlockedFrom(s, n, treelock)
      modifies this`link, this`refctr, this`nlookup, this`up, this`pins, idTable, nameTable
      ensures Valid()
      ensures State() == Unref(s, n)
    {
      UnrefEffect(s, {}, n);
      UnrefNode(n, {}, 0);
    }

    /**
      forget_node, once it does not wait any more: either lookups stay, or the
      node is not locked; then nothing that is deleted is locked.
     */
    method ForgetNode(n: NodeId, k: nat)
      requires Valid() && n in nlookup && 0 < nlookup[n] && k <= nlookup[n]
      requires LocksHeld(State(), treelock) && n in treelock && (nlookup[n] == k ==> treelock[n] == 0)
      modifies this`link, this`refctr, this`nlookup, this`up, this`pins, idTable, nameTable
      ensures Valid()
      ensures if n == ROOT then State() == old(State()) else IsForgotten(old(State()), n, k, State())
      ensures Unlocked(treelock, old(up.Keys) - up.Keys)
    {
      if n != ROOT {
        ForgetOther(n, k, State());
      }
    }

    method ForgetOther(n: NodeId, k: nat, ghost s: Refs)
      requires TablesOk(0) && State() == s && RefsOk(s) && Live(s, n) && k <= s.nlookup[n] && n != ROOT
      requires LocksHeld(s, treelock) && n in treelock && (s.nlookup[n] == k ==> treelock[n] == 0)
      modifies this`link, this`refctr, this`nlookup, this`up, this`pins, idTable, nameTable
      ensures Valid()
      ensures IsForgotten(s, n, k, State()) && Unlocked(treelock, s.tree.up.Keys - up.Keys)
    {
      var left := nlookup[n] - k;
      LeftKeeps(s, n, left);
      SetLookups(n, left);
      if left == 0 {
        DropLast(n, s);
      }
    }

    /** The end of forget_node, if no lookups are left. */
    method DropLast(n: NodeId, ghost s: Refs)
      requires TablesOk(0) && RefsOk(s) && Live(s, n) && n != ROOT && State() == Left(s, n, 0)
      requires LocksHeld(s, treelock) && n in treelock && treelock[n] == 0
      modifies this`link, this`refctr, this`nlookup, this`up, this`pins, idTable, nameTable
      ensures Valid()
      ensures State() == LastUnref(s, n) && Unlocked(treelock, s.tree.up.Keys - up.Keys)
    {
      LastUnlocked(s, n, treelock);
      LeftKeeps(s, n, 0);
      DropOwed(n, Left(s, n, 0));
    }

    /** unhash_name, for a node that lives on */
    method UnhashFrom(w: NodeId, ghost s: Refs)
      requires TablesOk(0) && State() == s && RefsOk(s) && w in s.tree.up
      requires w in s.tree.link ==> UnlockedAbove(s, w, treelock)
      modifies this`link, this`refctr, this`nlookup, this`up, this`pins, idTable, nameTable
      ensures TablesOk(0)
      ensures State() == Unhash(s, w)
    {
      if w in link {
        NameLostKeeps(s, {}, w);
      }
      UnhashName(w, {}, 0);
    }

    /** The body of the loop in fuse_clean_cache, for a node whose time is over. */
    method CleanNode(n: NodeId)
      requires Valid() && n in nlookup && nlookup[n] == 1 && n in refctr && n != ROOT
      requires LocksHeld(State(), treelock) && (refctr[n] == 1 ==> n in treelock && treelock[n] == 0)
      modifies this`link, this`refctr, this`nlookup, this`up, this`pins, idTable, nameTable
      ensures Valid()
      ensures old(refctr[n]) > 1 ==> State() == old(State())
      ensures old(refctr[n]) == 1 ==> old(RefsOk(State()) && n in State().nlookup && State().nlookup[n] == 1)
                                      && State() == Forget(old(State()), n, 1)
      ensures Unlocked(treelock, old(up.Keys) - up.Keys)
    {
      ghost var s := State();
      assert CountOk(s, n);
      if refctr[n] > 1 {
        return;
      }
      CleanIsForget(s, n);
      LastUnlocked(s, n, treelock);
      CleanSteps(n, s);
    }

    method CleanSteps(n: NodeId, ghost s: Refs)
      requires TablesOk(0) && State() == s && RefsOk(s) && Live(s, n) && n != ROOT
      requires n in s.refctr && s.refctr[n] == 1
      requires LocksHeld(s, treelock) && n in treelock && treelock[n] == 0
      modifies this`link, this`refctr, this`nlookup, this`up, this`pins, idTable, nameTable
      ensures Valid()
      ensures State() == Cleaned(s, n)
    {
      CleanUnlocked(s, n, treelock);
      SetLookups(n, 0);
      CleanRest(n, LastLookupGone(s, n));
    }

    method CleanRest(n: NodeId, ghost s1: Refs)
      requires TablesOk(0) && State() == s1 && n in s1.tree.up && CleanReady(s1, n, treelock) == true
      modifies this`link, this`refctr, this`nlookup, this`up, this`pins, idTable, nameTable
      ensures Valid()
      ensures RefsOk(s1) && n in s1.pins && State() == CleanedRest(s1, n)
    {
      UnhashFrom(n, s1);
      DropOwed(n, Unhash(s1, n));
    }

    /** The lookup of ".": the node is pinned while the lookup runs. */
    method Pin(n: NodeId)
      requires Valid() && n in refctr
      modifies this`refctr, this`pins
      ensures Valid()
      ensures old(n in State().refctr) && State() == Pinned(old(State()), n)
    {
      PinKeeps(State(), n);
      refctr := refctr[n := refctr[n] + 1];
      pins := pins + multiset{n};
    }

    /** ... and unpinned afterwards; it may be the last reference, and then nobody has the node locked. */
    method Unpin(n: NodeId)
      requires Valid() && n in pins && n in up && LocksHeld(State(), treelock)
      modifies this`link, this`refctr, this`nlookup, this`up, this`pins, idTable, nameTable
      ensures Valid()
      ensures old(WellFormed(State().tree) && State().refctr.Keys == State().tree.up.Keys && n in State().tree.up)
              && State() == Unref(old(State()), n)
      ensures Unlocked(treelock, old(up.Keys) - up.Keys)
    {
      ghost var s := State();
      FallenUnlocked(s, n, treelock);
      FreedAre(s, n);
      DropOwed(n, s);
    }

    // ----- names -----

    /** unhash_name, where the kernel still looks at the parent */
    method LoseName(w: NodeId)
      requires Valid() && w in up && (w in link ==> Live(State(), link[w].parent))
      modifies this`link, this`refctr, this`nlookup, this`up, this`pins, idTable, nameTable
      ensures Valid()
      ensures Lost(old(State()), w, old(nlookup), State())
    {
      UnhashLoses(State(), w);
      if w in link {
        NameLostKeeps(State(), {}, w);
        NothingFalls(State(), w, treelock);
      }
      UnhashName(w, {}, 0);
    }

    /** The start of unlink_node: the cache gives back the lookup it keeps. */
    method GiveBackCached(w: NodeId)
      requires TablesOk(0) && w in nlookup && (remember ==> nlookup[w] > 1)
      modifies this`nlookup, this`pins
      ensures TablesOk(0)
      ensures old(w in State().nlookup) && State() == Unremember(old(State()), w, remember)
    {
      if remember {
        SetLookups(w, nlookup[w] - 1);
      }
    }

    /** unlink_node */
    method UnlinkNode(w: NodeId)
      requires Valid() && w in link && w in nlookup && Live(State(), link[w].parent)
      requires remember ==> nlookup[w] > 1
      modifies this`link, this`refctr, this`nlookup, this`up, this`pins, idTable, nameTable
      ensures Valid()
      ensures Lost(old(State()), w, Unremembered(old(nlookup), w, remember), State())
    {
      ghost var s := State();
      UnlinkLoses(s, w, remember);
      GiveBackCached(w);
      NothingFalls(Unremember(s, w, remember), w, treelock);
      UnhashFrom(w, Unremember(s, w, remember));
    }

    /** remove_node */
    method RemoveNode(dir: NodeId, name: string)
      requires Valid() && CanRemove(State(), Link(dir, name), remember)
      modifies this`link, this`refctr, this`nlookup, this`up, this`pins, idTable, nameTable
      ensures Valid()
      ensures old(CanRemove(State(), Link(dir, name), remember))
              && State() == Removed(old(State()), Link(dir, name), remember)
    {
      ghost var s := State();
      RemovedKeeps(s, Link(dir, name), remember);
      var node := LookupNode(dir, name);
      if node.Some? {
        EntryNode(s, Link(dir, name));
        UnlinkNode(node.value);
        Determined(State(), Removed(s, Link(dir, name), remember));
      }
    }

    /** hash_name for a node that just lost its name */
    method GainName(w: NodeId, at: Link, memory: bool)
      requires ample ==> memory
      requires Valid() && NameReady(State(), w, at)
      modifies this`link, this`refctr, this`up, nameTable
      ensures Valid()
      ensures Gained(old(State()), w, at, State())
    {
      NamedGains(State(), w, at);
      HashName(w, at, memory);
    }

    /** The part of rename_node that makes room: a node already called newname is unlinked. */
    method MakeRoom(node: NodeId, at: Link)
      requires Valid() && node in link && Live(State(), link[node].parent) && Waits(State(), node, at)
      requires CanUnlink(State(), at, remember)
      modifies this`link, this`refctr, this`nlookup, this`up, this`pins, idTable, nameTable
      ensures Valid()
      ensures Cleared(old(State()), node, at, remember, State())
    {
      ghost var s := State();
      var newNode := LookupNode(at.parent, at.name);
      if newNode.Some? {
        EntryNode(s, at);
        UnlinkNode(newNode.value);
      }
      RoomMade(s, node, at, remember, State());
    }

    /** rename_node; keeps says whether the new name can be allocated, memory whether a full table can grow. */
    method RenameNode(src: Link, dst: Link, hiding: bool, keeps: bool, memory: bool) returns (err: Errno)
      requires ample ==> memory
      requires Valid() && CanRename(State(), src, dst, remember, hiding)
      modifies this`link, this`refctr, this`nlookup, this`up, this`pins, idTable, nameTable
      ensures Valid()
      ensures old(CanRename(State(), src, dst, remember, hiding))
              && State() == RenamedTo(old(State()), src, dst, remember, hiding, keeps)
      ensures err == if src !in old(nameTable.contents) then OK
                     else if dst in old(nameTable.contents) && hiding then EBUSY
                     else if keeps then OK else ENOMEM
    {
      var node := LookupNode(src.parent, src.name);
      var newNode := LookupNode(dst.parent, dst.name);
      if node.None? {
        return OK;
      }
      if newNode.Some? && hiding {
        return EBUSY;
      }
      err := RenameFound(node.value, src, dst, keeps, memory);
    }

    /** The steps of rename_node, seen from their result. */
    method RenameFound(node: NodeId, ghost src: Link, dst: Link, keeps: bool, memory: bool) returns (err: Errno)
      requires ample ==> memory
      requires Valid() && src in nameTable.contents && nameTable.contents[src] == node
      requires CanMove(State(), src, dst, remember)
      modifies this`link, this`refctr, this`nlookup, this`up, this`pins, idTable, nameTable
      ensures Valid() && err == if keeps then OK else ENOMEM
      ensures old(CanMove(State(), src, dst, remember) && src in State().tree.index)
              && State() == Moved(old(State()), src, dst, remember, keeps)
    {
      ghost var s := State();
      EntryNode(s, src);
      MovedIs(s, src, dst, remember, keeps);
      err := MoveName(node, src, dst, keeps, memory);
      RenameDetermined(s, src, dst, remember, keeps, State(), Moved(s, src, dst, remember, keeps));
    }

    method MoveName(node: NodeId, ghost src: Link, dst: Link, keeps: bool, memory: bool) returns (err: Errno)
      requires ample ==> memory
      requires Valid() && node in link && link[node] == src && Live(State(), src.parent)
      requires CanUnlink(State(), dst, remember) && Waits(State(), node, dst)
      requires src in nameTable.contents && nameTable.contents[src] == node
      modifies this`link, this`refctr, this`nlookup, this`up, this`pins, idTable, nameTable
      ensures Valid()
      ensures err == if keeps then OK else ENOMEM
      ensures RenameDone(old(State()), src, dst, remember, keeps, State()) == true
    {
      ghost var s0 := State();
      MakeRoom(node, dst);
      ghost var s1 := State();
      LoseName(node);
      ghost var s2 := State();
      MoveReady(s0, node, dst, remember, s1, s2);
      if !keeps {
        MoveFailed(s0, src, dst, remember, s2);
        return ENOMEM;
      }
      GainName(node, dst, memory);
      MoveDone(s0, src, dst, remember, s2, State());
      return OK;
    }

    /** unhash_name for a node found before, if there was one */
    method LoseNameOf(node: Option<NodeId>)
      requires Valid() && (node.Some? ==> node.value in up)
      requires node.Some? && node.value in link ==> Live(State(), link[node.value].parent)
      modifies this`link, this`refctr, this`nlookup, this`up, this`pins, idTable, nameTable
      ensures Valid()
      ensures if node.None? then State() == old(State())
              else Lost(old(State()), node.value, old(nlookup), State())
    {
      if node.Some? {
        LoseName(node.value);
      }
    }

    /** hash_name for a node found before, if there was one; kept says whether that went well. */
    method GainNameOf(node: Option<NodeId>, at: Link, keeps: bool, memory: bool) returns (kept: bool)
      requires ample ==> memory
      requires Valid() && (node.Some? ==> NameReady(State(), node.value, at))
      modifies this`link, this`refctr, this`up, nameTable
      ensures Valid()
      ensures kept == (node.None? || keeps)
      ensures if node.Some? && keeps then Gained(old(State()), node.value, at, State())
              else State() == old(State())
    {
      if node.None? {
        return true;
      }
      if keeps {
        GainName(node.value, at, memory);
      }
      return keeps;
    }

    /** The first half of exchange_node: both nodes are found, then both lose their names. */
    method LoseBoth(src: Link, dst: Link) returns (oldNode: Option<NodeId>, newNode: Option<NodeId>)
      requires Valid() && CanExchange(State(), src, dst)
      modifies this`link, this`refctr, this`nlookup, this`up, this`pins, idTable, nameTable
      ensures Valid()
      ensures oldNode == PathTree.Lookup(old(State()).tree, src.parent, src.name)
      ensures newNode == PathTree.Lookup(old(State()).tree, dst.parent, dst.name)
      ensures ReadyToSwap(old(State()), src, dst, State())
    {
      ghost var s0 := State();
      oldNode := LookupNode(src.parent, src.name);
      newNode := LookupNode(dst.parent, dst.name);
      ExchangeParents(s0, src, dst);
      LoseNameOf(oldNode);
      ghost var s1 := State();
      SecondParent(s0, src, dst, s1);
      LoseNameOf(newNode);
      ReadyAfterBoth(s0, src, dst, s1, State());
    }

    /** exchange_node; keepsOld and keepsNew say whether the two new names can be allocated. */
    method ExchangeNode(src: Link, dst: Link, keepsOld: bool, keepsNew: bool, memory: bool) returns (err: Errno)
      requires ample ==> memory
      requires Valid() && CanExchange(State(), src, dst)
      modifies this`link, this`refctr, this`nlookup, this`up, this`pins, idTable, nameTable
      ensures Valid()
      ensures old(CanExchange(State(), src, dst))
              && State() == ExchangedFor(old(State()), src, dst, keepsOld, keepsNew)
      ensures err == if (src in old(nameTable.contents) && !keepsOld) || (dst in old(nameTable.contents) && !keepsNew)
                     then ENOMEM else OK
    {
      ghost var s := State();
      ghost var j := ExchangeSteps(s, src, dst, keepsOld, keepsNew);
      ExchangedIs(s, src, dst, keepsOld, keepsNew);
      err := ExchangeNames(src, dst, keepsOld, keepsNew, memory, s);
      ExchangeDetermined(s, src, dst, j, State(), ExchangedFor(s, src, dst, keepsOld, keepsNew));
    }

    method ExchangeNames(src: Link, dst: Link, keepsOld: bool, keepsNew: bool, memory: bool, ghost s: Refs)
      returns (err: Errno)
      requires ample ==> memory
      requires Valid() && State() == s && CanExchange(s, src, dst)
      modifies this`link, this`refctr, this`nlookup, this`up, this`pins, idTable, nameTable
      ensures Valid()
      ensures Exchanged(s, src, dst, ExchangeSteps(s, src, dst, keepsOld, keepsNew), State())
      ensures err == if ExchangeSteps(s, src, dst, keepsOld, keepsNew) == 2 then OK else ENOMEM
    {
      var oldNode, newNode := LoseBoth(src, dst);
      var kept := GainFirst(s, oldNode, src, dst, keepsOld, memory);
      if !kept {
        return ENOMEM;
      }
      kept := GainSecond(s, newNode, src, dst, keepsNew, memory);
      return if kept then OK else ENOMEM;
    }

    method GainFirst(ghost s0: Refs, oldNode: Option<NodeId>, ghost src: Link, dst: Link, keeps: bool, memory: bool)
      returns (kept: bool)
      requires ample ==> memory
      requires Valid() && src != dst && ReadyToSwap(s0, src, dst, State()) == true
      requires oldNode == PathTree.Lookup(s0.tree, src.parent, src.name)
      modifies this`link, this`refctr, this`up, nameTable
      ensures Valid()
      ensures kept == (src !in s0.tree.index || keeps)
      ensures Exchanged(s0, src, dst, if kept then 1 else 0, State())
      ensures kept && dst in s0.tree.index ==> NameReady(State(), s0.tree.index[dst], src)
    {
      ghost var s2 := State();
      kept := GainNameOf(oldNode, dst, keeps, memory);
      if kept {
        SwapFirst(s0, src, dst, s2, State());
      }
    }

    method GainSecond(ghost s0: Refs, newNode: Option<NodeId>, src: Link, ghost dst: Link, keeps: bool, memory: bool)
      returns (kept: bool)
      requires ample ==> memory
      requires Valid() && Exchanged(s0, src, dst, 1, State()) == true
      requires dst in s0.tree.index ==> NameReady(State(), s0.tree.index[dst], src)
      requires newNode == PathTree.Lookup(s0.tree, dst.parent, dst.name)
      modifies this`link, this`refctr, this`up, nameTable
      ensures Valid()
      ensures kept == (dst !in s0.tree.index || keeps)
      ensures Exchanged(s0, src, dst, if kept then 2 else 1, State())
    {
      ghost var s3 := State();
      kept := GainNameOf(newNode, src, keeps, memory);
      if kept {
        SwapSecond(s0, src, dst, s3, State());
      }
    }
  }

  /** w without its parent and name, which the name table does not know any more. */
  function Loose(s: Refs, w: NodeId): Refs
    requires w in s.tree.link
  {
    s.(tree := Tree(s.tree.link - {w}, s.tree.index, CutAll(s.tree.up, w)),
       pins := s.pins + multiset{s.tree.link[w].parent})
  }

  /** A fresh node that no table knows yet. */
  function Blank(s: Refs, n: NodeId): Refs
  {
    s.(refctr := s.refctr[n := 0], nlookup := s.nlookup[n := 0])
  }

  /** n, named under p, is entered among the live nodes. */
  function Entered(s: Refs, n: NodeId, p: NodeId): Refs
    requires p in s.tree.up
  {
    s.(tree := s.tree.(up := s.tree.up[n := [n] + s.tree.up[p]]))
  }

  /** A new node before it has its name, looked up by the cache alone if it remembers nodes. */
  function Allocated(s: Refs, n: NodeId, remember: bool): Refs
  {
    if remember then IncLookup(Blank(s, n), n) else Blank(s, n)
  }

  ghost predicate IsCreated(s: Refs, n: NodeId, at: Link, lookups: nat, s': Refs)
  {
    && n !in s.tree.up && at.parent in s.tree.up && at.parent in s.refctr && at.parent != n
    && s' == Created(s, n, at, lookups)
  }

  /** n is allocated but in no table yet, and at is free. */
  ghost predicate Enterable(s: Refs, n: NodeId, at: Link)
  {
    && n !in s.tree.up && n in s.refctr && n in s.nlookup
    && at !in s.tree.index && at.parent in s.tree.up && at.parent in s.refctr
  }

  lemma AllocatedEnterable(s: Refs, n: NodeId, at: Link, remember: bool)
    requires n !in s.tree.up && at !in s.tree.index && at.parent in s.tree.up && at.parent in s.refctr
    ensures Enterable(Allocated(s, n, remember), n, at)
  {
  }

  /** The steps of find_node for a new node add up to a node that its first lookups hold. */
  lemma MakeSteps(s: Refs, n: NodeId, at: Link, remember: bool)
    requires WellFormed(s.tree) && n !in s.tree.up && at.parent in s.tree.up && at.parent in s.refctr
    ensures IncLookup(Entered(Named(Allocated(s, n, remember), n, at), n, at.parent), n) ==
            Created(s, n, at, if remember then 2 else 1)
  {
    MakeTree(s.tree, n, at);
    MakeLookups(s.nlookup, n);
    MakeCounts(s.refctr, n, at.parent);
  }

  lemma MakeTree(t: Tree, n: NodeId, at: Link)
    requires WellFormed(t) && n !in t.up && at.parent in t.up
    ensures var named := Attach(t, n, at.parent, at.name);
      named.(up := named.up[n := [n] + named.up[at.parent]]) == Attach(AddNode(t, n), n, at.parent, at.name)
  {
    var named := Attach(t, n, at.parent, at.name);
    OffWalks(t, n, at.parent);
    assert named.up[n := [n] + named.up[at.parent]] == Attach(AddNode(t, n), n, at.parent, at.name).up;
  }

  lemma MakeCounts(refctr: map<NodeId, int>, n: NodeId, p: NodeId)
    requires p in refctr && p != n
    ensures refctr[n := 0][n := 1][p := refctr[p] + 1] == refctr[n := 1][p := refctr[p] + 1]
    ensures refctr[n := 0][p := refctr[p] + 1][n := 1] == refctr[n := 1][p := refctr[p] + 1]
  {
  }

  lemma MakeLookups(nlookup: map<NodeId, nat>, n: NodeId)
    ensures nlookup[n := 0][n := 1] == nlookup[n := 1]
    ensures nlookup[n := 0][n := 1][n := 2] == nlookup[n := 2]
  {
  }

  /**
    What find_node leaves behind: one lookup more of the node it answers, which is new only if the
    name was unknown.
   */
  ghost predicate Found(s: Refs, parent: NodeId, name: Option<string>, lookups: nat, r: Option<NodeId>, s': Refs)
  {
    if name.None? then
      r == Some(parent) && parent in s.refctr && parent in s.nlookup && s' == IncLookup(s, parent)
    else if PathTree.Lookup(s.tree, parent, name.value).Some? then
      && r == PathTree.Lookup(s.tree, parent, name.value)
      && r.value in s.refctr && r.value in s.nlookup && s' == IncLookup(s, r.value)
    else if r.None? then
      s' == s
    else
      IsCreated(s, r.value, Link(parent, name.value), lookups, s')
  }

  /** find_node is asked for a name that nobody has there. */
  ghost predicate Unknown(s: Refs, parent: NodeId, name: Option<string>)
  {
    name.Some? && PathTree.Lookup(s.tree, parent, name.value).None?
  }

  lemma FoundIsLive(s: Refs, parent: NodeId, name: Option<string>, n: NodeId)
    requires RefsOk(s)
      && (if name.None? then n == parent && n in s.tree.up else PathTree.Lookup(s.tree, parent, name.value) == Some(n))
    ensures n in s.tree.up && n in s.refctr && n in s.nlookup
  {
    if name.Some? {
      assert EntryOk(s.tree, Link(parent, name.value));
    }
  }

  /** Nothing that falls with one decrement at n is locked. */
  ghost predicate UnlockedFrom(s: Refs, n: NodeId, locks: map<NodeId, int>)
  {
    n in s.tree.up && Unlocked(locks, Fallen(s, n)) == true
  }

  /** Nothing that falls with the name of w is locked. */
  ghost predicate UnlockedAbove(s: Refs, w: NodeId, locks: map<NodeId, int>)
  {
    w in s.tree.link && UnlockedFrom(Unname(s, w), s.tree.link[w].parent, locks)
  }

  lemma UnlockedFirst(s: Refs, n: NodeId, locks: map<NodeId, int>)
    requires WellFormed(s.tree) && n in s.tree.up && n in s.refctr && s.refctr[n] == 1
    requires UnlockedFrom(s, n, locks)
    ensures n in locks && locks[n] == 0
  {
    FallenFirst(s, n);
  }

  lemma UnlockedOnwards(s: Refs, dead: set<NodeId>, n: NodeId, locks: map<NodeId, int>)
    requires RefsOkBut(s, dead) && n in s.pins && n in s.refctr && s.refctr[n] == 1 && UnlockedFrom(s, n, locks)
    ensures n in s.tree.link ==> UnlockedAbove(Decrement(s, n), n, locks)
  {
    if n in s.tree.link {
      var p := s.tree.link[n].parent;
      UnnameIs(s, dead, n);
      FallOfParent(s, n, p, Unname(Decrement(s, n), n));
    }
  }

  /** Under a parent that is looked up, nothing falls. */
  lemma NothingFalls(s: Refs, w: NodeId, locks: map<NodeId, int>)
    requires RefsOk(s) && w in s.tree.link && Live(s, s.tree.link[w].parent)
    ensures UnlockedAbove(s, w, locks)
  {
    var p, r := s.tree.link[w].parent, Unname(s, w);
    NameLostKeeps(s, {}, w);
    assert CountOk(r, p);
    assert NodeOk(r.tree, p);
    assert Fallen(r, p) == {};
  }

  lemma FreedAre(s: Refs, n: NodeId)
    requires RefsOk(s) && n in s.pins && n in s.tree.up
    ensures s.tree.up.Keys - Unref(s, n).tree.up.Keys == Fallen(s, n)
  {
    UnrefEffect(s, {}, n);
    assert (s.tree.up - Fallen(s, n)).Keys == s.tree.up.Keys - Fallen(s, n);
  }

  /** What goes with the last lookup of n is not locked, if n is not. */
  lemma LastUnlocked(s: Refs, n: NodeId, locks: map<NodeId, int>)
    requires RefsOk(s) && Live(s, n) && n != ROOT && LocksHeld(s, locks) && n in locks && locks[n] == 0
    ensures UnlockedFrom(Left(s, n, 0), n, locks)
    ensures Unlocked(locks, s.tree.up.Keys - LastUnref(s, n).tree.up.Keys)
  {
    var s1 := LastLookupGone(s, n);
    LastLookupKeeps(s, n);
    LocksHeldUnlooked(s, n, locks);
    FallenUnlocked(s1, n, locks);
    FreedAre(s1, n);
    assert s1 == Left(s, n, 0);
  }

  /** What fuse_clean_cache may rely on between its steps. */
  ghost predicate CleanReady(s1: Refs, n: NodeId, locks: map<NodeId, int>)
  {
    && RefsOk(s1) && n in s1.pins && (n in s1.tree.link ==> UnlockedAbove(s1, n, locks))
    && RefsOk(Unhash(s1, n)) && n in Unhash(s1, n).pins && UnlockedFrom(Unhash(s1, n), n, locks)
  }

  /** Cleaning the cache takes the name first; neither what falls with it nor the node itself is locked. */
  lemma CleanUnlocked(s: Refs, n: NodeId, locks: map<NodeId, int>)
    requires RefsOk(s) && Live(s, n) && n != ROOT && n in s.refctr && s.refctr[n] == 1
    requires LocksHeld(s, locks) && n in locks && locks[n] == 0
    ensures CleanReady(LastLookupGone(s, n), n, locks)
    ensures RefsOk(LastLookupGone(s, n)) && Cleaned(s, n) == CleanedRest(LastLookupGone(s, n), n)
  {
    LastLookupKeeps(s, n);
    LastUnlocked(s, n, locks);
    CleanReadyIf(LastLookupGone(s, n), n, locks);
  }

  lemma CleanReadyIf(s1: Refs, n: NodeId, locks: map<NodeId, int>)
    requires RefsOk(s1) && n in s1.pins && n in s1.refctr && s1.refctr[n] == 1 && UnlockedFrom(s1, n, locks)
    ensures CleanReady(s1, n, locks)
  {
    StaysPinned(s1, n);
    if n in s1.tree.link {
      CleanFalls(s1, n);
    }
  }

  lemma CleanFalls(s1: Refs, n: NodeId)
    requires RefsOk(s1) && n in s1.pins && n in s1.refctr && s1.refctr[n] == 1 && n in s1.tree.link
    ensures var p, r := s1.tree.link[n].parent, Unname(s1, n);
      && RefsOk(r) && p in r.tree.up && n in Unref(r, p).tree.up
      && Fallen(s1, n) == {n} + Fallen(r, p) && Fallen(Unref(r, p), n) == {n}
  {
    var p, r := s1.tree.link[n].parent, Unname(s1, n);
    StaysBehind(s1, n);
    UnnameIs(s1, {}, n);
    FallOfParent(s1, n, p, Unname(Decrement(s1, n), n));
    SameFall(s1, n);
    EffectOfLoose(Unref(r, p), n);
  }

  /** The parent falls or stays alike, whether n has lost its last reference by then or not. */
  lemma SameFall(s1: Refs, n: NodeId)
    requires RefsOk(s1) && n in s1.pins && n in s1.refctr && s1.refctr[n] == 1 && n in s1.tree.link
    ensures var p := s1.tree.link[n].parent;
      && p in Unname(s1, n).tree.up && p in Unname(Decrement(s1, n), n).tree.up
      && Fallen(Unname(s1, n), p) == Fallen(Unname(Decrement(s1, n), n), p)
  {
    var p, r, q := s1.tree.link[n].parent, Unname(s1, n), Unname(Decrement(s1, n), n);
    StaysBehind(s1, n);
    forall m | m in r.tree.up[p] ensures m in r.refctr && m in q.refctr && r.refctr[m] == q.refctr[m] {
      var k :| 0 <= k < |r.tree.up[p]| && r.tree.up[p][k] == m;
      WalkStep(r.tree, p, k);
    }
    FallsSame(r.refctr, q.refctr, r.tree.up[p]);
  }

  lemma NameEntry(t: Tree, w: NodeId)
    requires WellFormed(t) && w in t.link
    ensures t.link[w] in t.index && t.index[t.link[w]] == w
  {
    assert NodeOk(t, w);
  }

  lemma OwedReference(s: Refs, dead: set<NodeId>, n: NodeId)
    requires RefsOkBut(s, dead) && n in s.pins
    ensures n in s.refctr && s.refctr[n] > 0
  {
    assert n in dead ==> GivenUp(s, n);
    assert CountOk(s, n);
  }

  /** What delete_node may rely on: its parent can take the decrement, and the node itself survives that. */
  lemma DeleteFacts(s: Refs, dead: set<NodeId>, n: NodeId)
    requires RefsOkBut(s, dead) && n in s.pins && s.refctr[n] == 1
    ensures n !in s.tree.link ==> Unref(s, n) == Drop(Decrement(s, n), n)
    ensures n in s.tree.link ==>
      var p := s.tree.link[n].parent;
      var r := Unname(Decrement(s, n), n);
      && p in r.pins && p in r.tree.up && RefsOkBut(r, dead + {n})
      && n in Unref(r, p).tree.up && Unref(s, n) == Drop(Unref(r, p), n)
  {
    if n in s.tree.link {
      var p := s.tree.link[n].parent;
      var r := Unname(Decrement(s, n), n);
      UnnameIs(s, dead, n);
      UnnameKeeps(s, dead, n, p, r);
      UnrefEffect(r, dead + {n}, p);
      FallOfParent(s, n, p, r);
    }
  }

  ghost predicate IsForgotten(s: Refs, n: NodeId, k: nat, s': Refs)
  {
    RefsOk(s) && n in s.nlookup && k <= s.nlookup[n] && s' == Forget(s, n, k)
  }

  /** With left lookups of n left. */
  function Left(s: Refs, n: NodeId, left: nat): Refs
    requires n in s.nlookup
  {
    s.(nlookup := s.nlookup[n := left], pins := if left == 0 then s.pins + multiset{n} else s.pins)
  }

  lemma LeftKeeps(s: Refs, n: NodeId, left: nat)
    requires RefsOk(s) && n in s.nlookup && left <= s.nlookup[n] && 0 < s.nlookup[n] && n != ROOT
    ensures RefsOk(Left(s, n, left))
    ensures left > 0 ==> IsForgotten(s, n, s.nlookup[n] - left, Left(s, n, left))
    ensures left == 0 ==> n in Left(s, n, 0).pins && IsForgotten(s, n, s.nlookup[n], LastUnref(s, n))
  {
    if left == 0 {
      LastLookupKeeps(s, n);
    } else {
      SomeLookupsKeep(s, n, s.nlookup[n] - left);
    }
  }

  ghost function LastUnref(s: Refs, n: NodeId): Refs
    requires RefsOk(s) && n in s.nlookup && 0 < s.nlookup[n] && n != ROOT
  {
    LastLookupKeeps(s, n);
    Unref(Left(s, n, 0), n)
  }
}
