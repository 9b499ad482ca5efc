/**
  Reference counts of the named nodes, and the deletions that run up the tree
  when a count reaches zero (lib/fuse.c, unhash_name, unref_node,
  delete_node), as values.
 */
module NodeRefs {
  import opened Wrappers
  import opened PathTree

  /** pins: references held by something else than a child or the kernel; a decrement still to be done counts as one. */
  datatype Refs = Refs(tree: Tree, refctr: map<NodeId, int>, nlookup: map<NodeId, nat>, pins: multiset<NodeId>)

  function Children(t: Tree, n: NodeId): set<NodeId>
  {
    set m | m in t.link && t.link[m].parent == n
  }

  function LookupRef(s: Refs, n: NodeId): nat
    requires n in s.nlookup
  {
    if s.nlookup[n] > 0 then 1 else 0
  }

  predicate CountOk(s: Refs, n: NodeId)
    requires n in s.refctr && n in s.nlookup
  {
    s.refctr[n] == |Children(s.tree, n)| + LookupRef(s, n) + s.pins[n] && s.refctr[n] > 0
  }

  // ----- the cascade, as the code runs it -----

  /** free_node, after both tables have lost the node */
  function Drop(s: Refs, n: NodeId): Refs
  {
    Refs(s.tree.(up := s.tree.up - {n}), s.refctr - {n}, s.nlookup - {n}, s.pins)
  }

  /** The chain part of unhash_name: w leaves its parent, which is owed a decrement. */
  function Unname(s: Refs, w: NodeId): Refs
    requires w in s.tree.link
  {
    s.(tree := Detach(s.tree, w), pins := s.pins + multiset{s.tree.link[w].parent})
  }

  /** One reference less. */
  function Decrement(s: Refs, n: NodeId): Refs
    requires n in s.refctr
  {
    s.(refctr := s.refctr[n := s.refctr[n] - 1], pins := s.pins - multiset{n})
  }

  lemma WalkShrinks(t: Tree, w: NodeId)
    requires WellFormed(t) && w in t.link
    ensures var p := t.link[w].parent;
      && p in t.up && w !in t.up[p] && |t.up[p]| < |t.up[w]|
      && Detach(t, w).up[p] == t.up[p] && t.up[w] == [w] + t.up[p]
  {
    var p := t.link[w].parent;
    assert NodeOk(t, w);
    if w in t.up[p] {
      var k :| 0 <= k < |t.up[p]| && t.up[p][k] == w;
      assert t.up[w][k + 1] == w;
      WalkDistinct(t, w, 0, k + 1);
    }
    DetachWellFormed(t, w);
  }

  /** unref_node, with delete_node and unhash_name for a node that nobody refers to any more */
  ghost function Unref(s: Refs, n: NodeId): Refs
    requires WellFormed(s.tree) && s.refctr.Keys == s.tree.up.Keys && n in s.tree.up
    decreases |s.tree.up[n]|
  {
    var s1 := Decrement(s, n);
    if s1.refctr[n] != 0 then s1
    else if n in s.tree.link then
      WalkShrinks(s.tree, n);
      DetachWellFormed(s.tree, n);
      Drop(Unref(Unname(s1, n), s.tree.link[n].parent), n)
    else Drop(s1, n)
  }

  // ----- what it amounts to -----

  /** How many nodes of the walk c fall: the leading ones that have only the one reference. */
  function Falls(refctr: map<NodeId, int>, c: seq<NodeId>): (k: nat)
    ensures k <= |c|
    ensures forall i :: 0 <= i < k ==> c[i] in refctr && refctr[c[i]] == 1
    ensures k < |c| ==> !(c[k] in refctr && refctr[c[k]] == 1)
  {
    if c == [] || c[0] !in refctr || refctr[c[0]] != 1 then 0 else 1 + Falls(refctr, c[1..])
  }

  function Nodes(c: seq<NodeId>): set<NodeId>
  {
    set n | n in c
  }

  /** The nodes that one decrement at n frees. */
  function Fallen(s: Refs, n: NodeId): set<NodeId>
    requires n in s.tree.up
  {
    Nodes(s.tree.up[n][..Falls(s.refctr, s.tree.up[n])])
  }

  /** A node that is already given up: nameless, childless, unpinned, and about to be freed. */
  ghost predicate GivenUp(s: Refs, n: NodeId)
  {
    n in s.tree.up && n !in s.tree.link && n !in s.pins && n != ROOT && Children(s.tree, n) == {}
  }

  /** RefsOk, but for the dead nodes, which are given up already. */
  ghost predicate RefsOkBut(s: Refs, dead: set<NodeId>)
  {
    && WellFormed(s.tree)
    && s.refctr.Keys == s.tree.up.Keys && s.nlookup.Keys == s.tree.up.Keys
    && (forall n {:trigger CountOk(s, n)} :: n in s.tree.up && n !in dead ==> CountOk(s, n))
    && (forall n {:trigger GivenUp(s, n)} :: n in dead ==> GivenUp(s, n))
    && PinsLive(s.pins, s.tree.up)
    && s.nlookup[ROOT] > 0
  }

  /** The invariant: every count is exact and positive. */
  ghost predicate RefsOk(s: Refs)
  {
    RefsOkBut(s, {}) == true
  }

  predicate PinsLive(pins: multiset<NodeId>, up: map<NodeId, seq<NodeId>>)
  {
    forall n :: n in pins ==> n in up
  }

  /** after: before without the fallen nodes, and one less for the first node of the walk c that does not fall. */
  ghost predicate FirstSurvivorCounts(before: map<NodeId, int>, c: seq<NodeId>, gone: set<NodeId>,
                                      after: map<NodeId, int>)
  {
    var k := Falls(before, c);
    && after.Keys == before.Keys - gone
    && forall m :: m in after ==> after[m] == if k < |c| && m == c[k] then before[m] - 1 else before[m]
  }

  /**
    What one decrement at n does: the fallen nodes are gone, the first survivor has one reference
    less, the rest is as before.
   */
  ghost predicate Effect(s: Refs, n: NodeId, r: Refs)
    requires n in s.tree.up
  {
    var c := s.tree.up[n];
    var gone := Fallen(s, n);
    && r.tree.up == s.tree.up - gone
    && r.tree.link == s.tree.link - gone
    && r.nlookup == s.nlookup - gone
    && r.pins == s.pins - multiset{n}
    && FirstSurvivorCounts(s.refctr, c, gone, r.refctr)
  }

  /** Only nodes nobody needs fall: never looked up, never pinned, never with a child that stays. */
  ghost predicate OnlyUnneeded(s: Refs, n: NodeId)
    requires n in s.tree.up
  {
    forall d :: d in Fallen(s, n) ==>
      && d != ROOT && d in s.nlookup && s.nlookup[d] == 0
      && Children(s.tree, d) <= Fallen(s, n)
      && s.pins[d] == if d == n then 1 else 0
  }

  /** A node on the walk of another node has a child there. */
  lemma ChildOnWalk(t: Tree, w: NodeId, m: NodeId)
    requires WellFormed(t) && m in t.up && w in t.up[m] && w != m
    ensures Children(t, w) != {}
  {
    var k :| 0 <= k < |t.up[m]| && t.up[m][k] == w;
    assert NodeOk(t, m);
    WalkStep(t, m, k - 1);
    assert t.up[m][k - 1] in Children(t, w);
  }

  /** A count of one, owed, leaves nothing that refers to the node. */
  lemma LastReference(s: Refs, dead: set<NodeId>, n: NodeId)
    requires RefsOkBut(s, dead) && n in s.pins && s.refctr[n] == 1
    ensures n !in dead && Children(s.tree, n) == {} && s.nlookup[n] == 0 && s.pins[n] == 1 && n != ROOT
  {
    assert n in dead ==> GivenUp(s, n);
    assert CountOk(s, n);
  }

  /** r is s after the last reference to n is gone and n, which has no children, has lost its name under p. */
  ghost predicate Unnamed(s: Refs, n: NodeId, p: NodeId, r: Refs)
  {
    && WellFormed(r.tree) && n != p && n in s.tree.up && n in s.tree.link && s.tree.link[n].parent == p
    && p in s.tree.up
    && r.tree.link == s.tree.link - {n} && r.tree.up.Keys == s.tree.up.Keys
    && n in s.refctr && r.refctr == s.refctr[n := 0] && r.nlookup == s.nlookup
    && r.pins == s.pins - multiset{n} + multiset{p}
    && (forall m :: m in s.tree.up && m != n ==> r.tree.up[m] == s.tree.up[m] && n !in s.tree.up[m])
  }

  lemma UnnameIs(s: Refs, dead: set<NodeId>, n: NodeId)
    requires RefsOkBut(s, dead) && n in s.pins && s.refctr[n] == 1 && n in s.tree.link
    ensures Unnamed(s, n, s.tree.link[n].parent, Unname(Decrement(s, n), n))
  {
    LastReference(s, dead, n);
    DetachWellFormed(s.tree, n);
    WalkShrinks(s.tree, n);
    forall m | m in s.tree.up && m != n ensures n !in s.tree.up[m] {
      if n in s.tree.up[m] {
        ChildOnWalk(s.tree, n, m);
      }
    }
  }

  lemma UnnameChildren(s: Refs, n: NodeId, p: NodeId, r: Refs, m: NodeId)
    requires Unnamed(s, n, p, r)
    ensures Children(r.tree, m) == Children(s.tree, m) - {n}
    ensures n in Children(s.tree, m) <==> m == p
  {
  }

  lemma UnnameCount(s: Refs, n: NodeId, p: NodeId, r: Refs, m: NodeId)
    requires Unnamed(s, n, p, r) && m in s.refctr && m in s.nlookup && CountOk(s, m) && m != n
    ensures CountOk(r, m)
  {
    UnnameChildren(s, n, p, r, m);
  }

  lemma UnnamePins(s: Refs, n: NodeId, p: NodeId, r: Refs)
    requires Unnamed(s, n, p, r) && PinsLive(s.pins, s.tree.up)
    ensures PinsLive(r.pins, r.tree.up) && p in r.pins
    ensures forall m :: m in r.pins ==> m in s.pins || m == p
    ensures s.pins[n] == 1 ==> n !in r.pins
  {
  }

  lemma UnnameGivenUp(s: Refs, dead: set<NodeId>, n: NodeId, p: NodeId, r: Refs, m: NodeId)
    requires RefsOkBut(s, dead) && n in s.pins && s.refctr[n] == 1 && Unnamed(s, n, p, r) && (m in dead || m == n)
    ensures GivenUp(r, m)
  {
    LastReference(s, dead, n);
    assert m in dead ==> GivenUp(s, m);
    UnnameChildren(s, n, p, r, m);
    UnnamePins(s, n, p, r);
  }

  lemma UnnameKeeps(s: Refs, dead: set<NodeId>, n: NodeId, p: NodeId, r: Refs)
    requires RefsOkBut(s, dead) && n in s.pins && s.refctr[n] == 1 && Unnamed(s, n, p, r)
    ensures RefsOkBut(r, dead + {n}) && p in r.pins && r.refctr[n] == 0
  {
    LastReference(s, dead, n);
    UnnamePins(s, n, p, r);
    var more := dead + {n};
    forall m | m in r.tree.up && m !in more ensures CountOk(r, m) {
      assert CountOk(s, m);
      UnnameCount(s, n, p, r, m);
    }
    forall m | m in more ensures GivenUp(r, m) {
      UnnameGivenUp(s, dead, n, p, r, m);
    }
  }

  lemma DropKeeps(s: Refs, dead: set<NodeId>, n: NodeId)
    requires RefsOkBut(s, dead + {n}) && n !in dead && n in s.tree.up
    requires n !in s.tree.link && Children(s.tree, n) == {}
    ensures RefsOkBut(Drop(s, n), dead)
  {
    var r := Drop(s, n);
    forall m | m in r.tree.up ensures NodeOk(r.tree, m) {
      assert NodeOk(s.tree, m);
      assert m in s.tree.link ==> m in Children(s.tree, s.tree.link[m].parent);
    }
    forall k | k in r.tree.index ensures EntryOk(r.tree, k) {
      assert EntryOk(s.tree, k);
    }
    forall m | m in r.tree.up && m !in dead ensures CountOk(r, m) {
      assert CountOk(s, m);
      assert Children(r.tree, m) == Children(s.tree, m);
    }
    forall m | m in dead ensures GivenUp(r, m) {
      assert m in dead + {n};
      assert GivenUp(s, m);
    }
    assert GivenUp(s, n);
  }

  lemma {:induction false} FallsSame(a: map<NodeId, int>, b: map<NodeId, int>, c: seq<NodeId>)
    requires forall n :: n in c ==> n in a && n in b && a[n] == b[n]
    ensures Falls(a, c) == Falls(b, c)
  {
    if c != [] {
      FallsSame(a, b, c[1..]);
    }
  }

  lemma FallsStep(refctr: map<NodeId, int>, n: NodeId, c: seq<NodeId>)
    requires n in refctr && refctr[n] == 1
    ensures Falls(refctr, [n] + c) == 1 + Falls(refctr, c)
    ensures Nodes(([n] + c)[..1 + Falls(refctr, c)]) == {n} + Nodes(c[..Falls(refctr, c)])
  {
    assert ([n] + c)[1..] == c;
    assert ([n] + c)[..1 + Falls(refctr, c)] == [n] + c[..Falls(refctr, c)];
  }

  /** The walks and the fall of n, in terms of its parent's after n has been unnamed. */
  lemma FallOfParent(s: Refs, n: NodeId, p: NodeId, r: Refs)
    requires WellFormed(s.tree) && s.refctr.Keys == s.tree.up.Keys && Unnamed(s, n, p, r) && s.refctr[n] == 1
    ensures s.tree.up[n] == [n] + r.tree.up[p] && n !in r.tree.up[p]
    ensures Falls(s.refctr, s.tree.up[n]) == 1 + Falls(r.refctr, r.tree.up[p])
    ensures Fallen(s, n) == {n} + Fallen(r, p) && n !in Fallen(r, p)
  {
    assert NodeOk(s.tree, n);
    WalkShrinks(s.tree, n);
    forall m | m in s.tree.up[p] ensures m in s.refctr && m in r.refctr && s.refctr[m] == r.refctr[m] {
      var k :| 0 <= k < |s.tree.up[p]| && s.tree.up[p][k] == m;
      WalkStep(s.tree, p, k);
    }
    FallsSame(s.refctr, r.refctr, s.tree.up[p]);
    FallsStep(s.refctr, n, s.tree.up[p]);
  }

  lemma EffectOfStay(s: Refs, dead: set<NodeId>, n: NodeId)
    requires RefsOkBut(s, dead) && n in s.pins && s.refctr[n] != 1
    ensures RefsOkBut(Decrement(s, n), dead) && Effect(s, n, Decrement(s, n)) && Fallen(s, n) == {}
  {
    var r := Decrement(s, n);
    assert NodeOk(s.tree, n);
    assert n in dead ==> GivenUp(s, n);
    assert CountOk(s, n);
    DecrementKeeps(s, dead, n);
  }

  lemma DecrementKeeps(s: Refs, dead: set<NodeId>, n: NodeId)
    requires RefsOkBut(s, dead) && n in s.pins && n in s.tree.up && n !in dead && s.refctr[n] != 1
    ensures RefsOkBut(Decrement(s, n), dead)
  {
    var r := Decrement(s, n);
    assert CountOk(s, n);
    forall m | m in r.tree.up && m !in dead ensures CountOk(r, m) {
      assert CountOk(s, m);
    }
    forall m | m in dead ensures GivenUp(r, m) {
      assert GivenUp(s, m);
    }
  }

  lemma LooseKeeps(s: Refs, dead: set<NodeId>, n: NodeId)
    requires RefsOkBut(s, dead) && n in s.pins && s.refctr[n] == 1 && n !in s.tree.link
    ensures RefsOkBut(Decrement(s, n), dead + {n})
  {
    var t := Decrement(s, n);
    LastReference(s, dead, n);
    var more := dead + {n};
    forall m | m in t.tree.up && m !in more ensures CountOk(t, m) {
      assert CountOk(s, m);
    }
    forall m | m in more ensures GivenUp(t, m) {
      assert m in dead ==> GivenUp(s, m);
    }
  }

  lemma EffectOfLoose(s: Refs, n: NodeId)
    requires WellFormed(s.tree) && s.refctr.Keys == s.tree.up.Keys && n in s.refctr && s.refctr[n] == 1
      && n !in s.tree.link
    ensures Effect(s, n, Drop(Decrement(s, n), n)) && Fallen(s, n) == {n}
  {
    assert NodeOk(s.tree, n);
    FallsStep(s.refctr, n, []);
    assert [n] + [] == [n];
  }

  lemma WithoutBoth<V>(a: map<NodeId, V>, b: map<NodeId, V>, f: set<NodeId>, n: NodeId)
    requires b.Keys - {n} == a.Keys - {n} && forall m :: m in a && m != n ==> m in b && b[m] == a[m]
    ensures b - f - {n} == a - ({n} + f)
  {
    forall m ensures m in b - f - {n} <==> m in a - ({n} + f) {
      assert m in b.Keys - {n} <==> m in a.Keys - {n};
    }
  }

  lemma CountsOfCascade(a: map<NodeId, int>, n: NodeId, c: seq<NodeId>, f: set<NodeId>, b: map<NodeId, int>)
    requires n in a && a[n] == 1 && n !in c && (forall m :: m in c ==> m in a)
    requires FirstSurvivorCounts(a[n := 0], c, f, b)
    ensures FirstSurvivorCounts(a, [n] + c, {n} + f, b - {n})
  {
    FallsSame(a, a[n := 0], c);
    FallsStep(a, n, c);
    var k := Falls(a, c);
    assert k < |c| ==> ([n] + c)[k + 1] == c[k];
  }

  lemma EffectOfCascade(s: Refs, n: NodeId, p: NodeId, s2: Refs, r3: Refs)
    requires WellFormed(s.tree) && s.refctr.Keys == s.tree.up.Keys && Unnamed(s, n, p, s2) && s.refctr[n] == 1
    requires p in s2.tree.up && Effect(s2, p, r3)
    ensures Effect(s, n, Drop(r3, n))
  {
    FallOfParent(s, n, p, s2);
    var f := Fallen(s2, p);
    WithoutBoth(s.tree.up, s2.tree.up, f, n);
    WithoutBoth(s.tree.link, s2.tree.link, f, n);
    WithoutBoth(s.nlookup, s2.nlookup, f, n);
    forall m | m in s2.tree.up[p] ensures m in s.refctr {
      var k :| 0 <= k < |s2.tree.up[p]| && s2.tree.up[p][k] == m;
      WalkStep(s2.tree, p, k);
    }
    CountsOfCascade(s.refctr, n, s2.tree.up[p], f, r3.refctr);
  }

  lemma UnneededOfCascade(s: Refs, dead: set<NodeId>, n: NodeId, p: NodeId, s2: Refs)
    requires RefsOkBut(s, dead) && n in s.pins && s.refctr[n] == 1 && Unnamed(s, n, p, s2)
    requires p in s2.tree.up && OnlyUnneeded(s2, p)
    ensures OnlyUnneeded(s, n)
  {
    LastReference(s, dead, n);
    FallOfParent(s, n, p, s2);
    forall d | d in Fallen(s, n)
      ensures d != ROOT && d in s.nlookup && s.nlookup[d] == 0 && Children(s.tree, d) <= Fallen(s, n)
      ensures s.pins[d] == if d == n then 1 else 0
    {
      UnnameChildren(s, n, p, s2, d);
    }
  }

  /**
    The cascade frees exactly the leading nodes of the walk that had only the
    one reference, none of which anything else needed, takes one reference
    off the first survivor, and leaves every other count as it was: exact.
   */
  lemma {:induction false} UnrefEffect(s: Refs, dead: set<NodeId>, n: NodeId)
    requires RefsOkBut(s, dead) && n in s.pins
    ensures RefsOkBut(Unref(s, n), dead) && Effect(s, n, Unref(s, n)) && OnlyUnneeded(s, n)
    decreases |s.tree.up[n]|
  {
    if s.refctr[n] != 1 {
      EffectOfStay(s, dead, n);
    } else {
      LastReference(s, dead, n);
      if n !in s.tree.link {
        EffectOfLoose(s, n);
        LooseKeeps(s, dead, n);
        DropKeeps(Decrement(s, n), dead, n);
      } else {
        var p := s.tree.link[n].parent;
        var s2 := Unname(Decrement(s, n), n);
        UnnameIs(s, dead, n);
        UnnameKeeps(s, dead, n, p, s2);
        WalkShrinks(s.tree, n);
        UnrefEffect(s2, dead + {n}, p);
        var r3 := Unref(s2, p);
        FallOfParent(s, n, p, s2);
        assert GivenUp(r3, n);
        DropKeeps(r3, dead, n);
        EffectOfCascade(s, n, p, s2, r3);
        UnneededOfCascade(s, dead, n, p, s2);
      }
    }
  }

  // ----- the operations -----

  /** inc_nlookup */
  function IncLookup(s: Refs, n: NodeId): Refs
    requires n in s.refctr && n in s.nlookup
  {
    s.(refctr := if s.nlookup[n] == 0 then s.refctr[n := s.refctr[n] + 1] else s.refctr,
       nlookup := s.nlookup[n := s.nlookup[n] + 1])
  }

  /** A new node that has no name yet and is held by its lookups only. */
  function Added(s: Refs, n: NodeId, lookups: nat): Refs
  {
    Refs(AddNode(s.tree, n), s.refctr[n := 1], s.nlookup[n := lookups], s.pins)
  }

  /** hash_name for a nameless node */
  function Named(s: Refs, w: NodeId, at: Link): Refs
    requires at.parent in s.tree.up && at.parent in s.refctr
  {
    s.(tree := Attach(s.tree, w, at.parent, at.name), refctr := s.refctr[at.parent := s.refctr[at.parent] + 1])
  }

  /** The new node of find_node; `lookups` is 2 if the cache remembers nodes, else 1. */
  function Created(s: Refs, n: NodeId, at: Link, lookups: nat): Refs
    requires at.parent in s.tree.up && at.parent in s.refctr && at.parent != n
  {
    Named(Added(s, n, lookups), n, at)
  }

  /** unhash_name */
  ghost function Unhash(s: Refs, w: NodeId): Refs
    requires RefsOk(s)
  {
    if w !in s.tree.link then s
    else
      NameLostKeeps(s, {}, w);
      Unref(Unname(s, w), s.tree.link[w].parent)
  }

  /** The kernel gives back k lookups of n (forget_node). */
  ghost function Forget(s: Refs, n: NodeId, k: nat): Refs
    requires RefsOk(s) && n in s.nlookup && k <= s.nlookup[n]
  {
    var s1 := s.(nlookup := s.nlookup[n := s.nlookup[n] - k]);
    if s.nlookup[n] == k then Unref(s1.(pins := s.pins + multiset{n}), n) else s1
  }

  lemma IncLookupKeeps(s: Refs, n: NodeId)
    requires RefsOk(s) && n in s.tree.up
    ensures RefsOk(IncLookup(s, n))
  {
    var r := IncLookup(s, n);
    forall m | m in r.tree.up ensures CountOk(r, m) {
      assert CountOk(s, m);
    }
  }

  /** A node that loses its name leaves its parent with one reference that is owed. */
  lemma NameLostKeeps(s: Refs, dead: set<NodeId>, w: NodeId)
    requires RefsOkBut(s, dead) && w in s.tree.link
    ensures RefsOkBut(Unname(s, w), dead) && s.tree.link[w].parent in Unname(s, w).pins
  {
    var r, p := Unname(s, w), s.tree.link[w].parent;
    DetachWellFormed(s.tree, w);
    WalkShrinks(s.tree, w);
    assert w in Children(s.tree, p);
    forall m | m in r.tree.up && m !in dead ensures CountOk(r, m) {
      assert CountOk(s, m);
      assert Children(r.tree, m) == Children(s.tree, m) - {w};
      assert w in Children(s.tree, m) <==> m == p;
    }
    forall m | m in dead ensures GivenUp(r, m) {
      assert GivenUp(s, m);
    }
  }

  /** t' is t with the nameless node w named at. */
  ghost predicate Attached(t: Tree, w: NodeId, at: Link, t': Tree)
  {
    WellFormed(t') && w !in t.link && t'.link == t.link[w := at] && t'.up.Keys == t.up.Keys
  }

  lemma AttachedChildren(t: Tree, w: NodeId, at: Link, t': Tree, m: NodeId)
    requires Attached(t, w, at, t')
    ensures Children(t', m) == Children(t, m) + (if m == at.parent then {w} else {})
    ensures w !in Children(t, m)
  {
  }

  lemma NamedKeeps(s: Refs, w: NodeId, at: Link)
    requires RefsOk(s) && w in s.tree.up && w !in s.tree.link && w != ROOT
    requires at.parent in s.tree.up && w !in s.tree.up[at.parent] && at !in s.tree.index
    ensures RefsOk(Named(s, w, at))
  {
    AttachWellFormed(s.tree, w, at.parent, at.name);
    NamedCounts(s, w, at, Named(s, w, at));
  }

  lemma NamedCounts(s: Refs, w: NodeId, at: Link, r: Refs)
    requires RefsOk(s) && at.parent in s.refctr && Attached(s.tree, w, at, r.tree)
    requires r.refctr == s.refctr[at.parent := s.refctr[at.parent] + 1] && r.nlookup == s.nlookup && r.pins == s.pins
    ensures RefsOk(r)
  {
    forall m | m in r.tree.up ensures CountOk(r, m) {
      assert CountOk(s, m);
      AttachedChildren(s.tree, w, at, r.tree, m);
    }
  }

  /** The new node before it has its name, held by the lookups only. */
  lemma AddedKeeps(s: Refs, n: NodeId, lookups: nat)
    requires RefsOk(s) && n !in s.tree.up && lookups > 0
    ensures RefsOk(Added(s, n, lookups))
  {
    var r := Added(s, n, lookups);
    AddNodeWellFormed(s.tree, n);
    NoChildrenYet(s.tree, n);
    assert s.pins[n] == 0;
    forall m | m in r.tree.up ensures CountOk(r, m) {
      assert m != n ==> CountOk(s, m);
      assert Children(r.tree, m) == Children(s.tree, m);
    }
  }

  lemma CreatedKeeps(s: Refs, n: NodeId, at: Link, lookups: nat)
    requires RefsOk(s) && n !in s.tree.up && at.parent in s.tree.up && at !in s.tree.index && lookups > 0
    ensures RefsOk(Created(s, n, at, lookups))
  {
    AddedKeeps(s, n, lookups);
    NoChildrenYet(s.tree, n);
    OffWalks(s.tree, n, at.parent);
    NamedKeeps(Added(s, n, lookups), n, at);
  }

  lemma OffWalks(t: Tree, n: NodeId, m: NodeId)
    requires WellFormed(t) && n !in t.up && m in t.up
    ensures n !in t.up[m]
  {
    forall k | 0 <= k < |t.up[m]| ensures t.up[m][k] != n {
      WalkStep(t, m, k);
    }
  }

  lemma NoChildrenYet(t: Tree, n: NodeId)
    requires WellFormed(t) && n !in t.up
    ensures Children(t, n) == {} && n != ROOT
  {
    forall m | m in t.link ensures t.link[m].parent != n {
      assert NodeOk(t, m);
    }
  }

  /** Losing the last lookup turns the reference the kernel held into one that is owed. */
  lemma LastLookupKeeps(s: Refs, n: NodeId)
    requires RefsOk(s) && n in s.nlookup && s.nlookup[n] > 0 && n != ROOT
    ensures RefsOk(s.(nlookup := s.nlookup[n := 0], pins := s.pins + multiset{n}))
  {
    var r := s.(nlookup := s.nlookup[n := 0], pins := s.pins + multiset{n});
    forall m | m in r.tree.up ensures CountOk(r, m) {
      assert CountOk(s, m);
    }
  }

  lemma SomeLookupsKeep(s: Refs, n: NodeId, k: nat)
    requires RefsOk(s) && n in s.nlookup && k < s.nlookup[n]
    ensures RefsOk(s.(nlookup := s.nlookup[n := s.nlookup[n] - k]))
  {
    var r := s.(nlookup := s.nlookup[n := s.nlookup[n] - k]);
    forall m | m in r.tree.up ensures CountOk(r, m) {
      assert CountOk(s, m);
    }
  }

  lemma OwedBack(s: Refs, w: NodeId, p: NodeId)
    requires w in s.tree.link && p == s.tree.link[w].parent && p in s.refctr
    ensures Decrement(Unname(s, w), p) == s.(tree := Detach(s.tree, w), refctr := s.refctr[p := s.refctr[p] - 1])
  {
    assert s.pins + multiset{p} - multiset{p} == s.pins;
  }

  /** Under a parent that the kernel looks at, unnaming a node only takes one reference off the parent. */
  lemma UnhashUnderLive(s: Refs, w: NodeId)
    requires RefsOk(s) && w in s.tree.link && s.tree.link[w].parent in s.nlookup && s.nlookup[s.tree.link[w].parent] > 0
    ensures var p := s.tree.link[w].parent;
      p in s.refctr && Unhash(s, w) == s.(tree := Detach(s.tree, w), refctr := s.refctr[p := s.refctr[p] - 1])
    ensures RefsOk(Unhash(s, w))
  {
    var p := s.tree.link[w].parent;
    NameLostKeeps(s, {}, w);
    var r := Unname(s, w);
    assert CountOk(r, p);
    UnrefEffect(r, {}, p);
    assert Unref(r, p) == Decrement(r, p);
    OwedBack(s, w, p);
  }

  /** unlink_node where the cache remembers nodes: the lookup the cache itself held is given back. */
  function Unremember(s: Refs, w: NodeId, remember: bool): Refs
    requires w in s.nlookup
  {
    if remember && s.nlookup[w] > 0 then s.(nlookup := s.nlookup[w := s.nlookup[w] - 1]) else s
  }
}
