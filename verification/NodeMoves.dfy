/**
  What the operations of lib/fuse.c on named nodes amount to: forgetting,
  cleaning the cache, unlinking, renaming and exchanging, in terms of the
  names, the live nodes and their lookups, which determine everything else.
 */
module NodeMoves {
  import opened Wrappers
  import opened PathTree
  import opened NodeRefs

  /** Whoever holds a reference of its own: a child, the kernel, or a pin. */
  ghost predicate Same(a: Refs, b: Refs)
  {
    a.tree.link == b.tree.link && a.tree.up.Keys == b.tree.up.Keys && a.nlookup == b.nlookup && a.pins == b.pins
  }

  /** The kernel (or the cache) looks at n. */
  predicate Live(s: Refs, n: NodeId)
  {
    n in s.tree.up && n in s.nlookup && s.nlookup[n] > 0
  }

  // ----- the names and lookups determine the index -----

  lemma {:induction false} WalksDetermined(a: Tree, b: Tree, n: NodeId)
    requires WellFormed(a) && WellFormed(b) && a.link == b.link && a.up.Keys == b.up.Keys && n in a.up
    ensures a.up[n] == b.up[n]
    decreases |a.up[n]|
  {
    assert NodeOk(a, n) && n in b.up.Keys && NodeOk(b, n);
    if n in a.link {
      WalksDetermined(a, b, a.link[n].parent);
    }
  }

  lemma IndexIncluded(a: Tree, b: Tree, k: Link)
    requires WellFormed(a) && WellFormed(b) && a.link == b.link && a.up.Keys == b.up.Keys && k in a.index
    ensures k in b.index && b.index[k] == a.index[k]
  {
    assert EntryOk(a, k);
    var n := a.index[k];
    assert n in b.link.Keys && n in b.up.Keys;
    assert NodeOk(b, n);
  }

  lemma TreesDetermined(a: Tree, b: Tree)
    requires WellFormed(a) && WellFormed(b) && a.link == b.link && a.up.Keys == b.up.Keys
    ensures a == b
  {
    forall k ensures k in a.index <==> k in b.index
             ensures k in a.index && k in b.index ==> a.index[k] == b.index[k] {
      if k in a.index {
        IndexIncluded(a, b, k);
      }
      if k in b.index {
        IndexIncluded(b, a, k);
      }
    }
    assert a.index == b.index;
    forall n | n in a.up ensures n in b.up && a.up[n] == b.up[n] {
      assert n in b.up.Keys;
      WalksDetermined(a, b, n);
    }
    assert a.up == b.up;
  }

  /**
    Two sound states with the same names, live nodes, lookups and pins are the same: counts and
    walks hold no history.
   */
  lemma Determined(a: Refs, b: Refs)
    requires RefsOk(a) && RefsOk(b) && Same(a, b)
    ensures a == b
  {
    TreesDetermined(a.tree, b.tree);
    forall n | n in a.refctr ensures n in b.refctr && a.refctr[n] == b.refctr[n] {
      assert n in a.tree.up.Keys && n in b.refctr.Keys;
      assert CountOk(a, n) && CountOk(b, n);
    }
    assert a.refctr == b.refctr;
  }

  // ----- forgetting -----

  /** The state in which the kernel has given back its last lookup of n, and the reference is still to be dropped. */
  function LastLookupGone(s: Refs, n: NodeId): Refs
    requires n in s.nlookup
  {
    s.(nlookup := s.nlookup[n := 0], pins := s.pins + multiset{n})
  }

  /** forget_node with lookups left: nothing is freed. */
  lemma ForgetSome(s: Refs, n: NodeId, k: nat)
    requires RefsOk(s) && n in s.nlookup && k < s.nlookup[n]
    ensures RefsOk(Forget(s, n, k)) && Same(Forget(s, n, k), s.(nlookup := s.nlookup[n := s.nlookup[n] - k]))
  {
    SomeLookupsKeep(s, n, k);
  }

  /** g is exactly what goes with the last lookup of n, and nobody needed any of it. */
  ghost predicate Frees(s: Refs, n: NodeId, g: set<NodeId>, s': Refs)
    requires n in s.nlookup && n in s.refctr
  {
    && s'.tree.up == s.tree.up - g && s'.tree.link == s.tree.link - g
    && s'.nlookup == s.nlookup[n := 0] - g && s'.pins == s.pins
    && (n in g <==> s.refctr[n] == 1)
    && (forall d :: d in g && d != n ==> d in s.nlookup && s.nlookup[d] == 0 && s.pins[d] == 0)
    && (forall d :: d in g ==> Children(s.tree, d) <= g)
  }

  /**
    forget_node for the last lookup: exactly the leading nodes of the walk from
    n go that had no reference but the one from the node before them; none of
    these was looked up, pinned, or had a child that stays.
   */
  lemma ForgetLast(s: Refs, n: NodeId)
    requires RefsOk(s) && n in s.nlookup && 0 < s.nlookup[n] && n != ROOT
    ensures RefsOk(Forget(s, n, s.nlookup[n]))
    ensures n in s.refctr && Frees(s, n, Fallen(LastLookupGone(s, n), n), Forget(s, n, s.nlookup[n]))
  {
    var s1 := LastLookupGone(s, n);
    LastLookupKeeps(s, n);
    UnrefEffect(s1, {}, n);
    FallenFirst(s1, n);
    forall d | d in Fallen(s1, n) ensures Children(s.tree, d) <= Fallen(s1, n) {
      assert Children(s1.tree, d) == Children(s.tree, d);
    }
  }

  /** If a node falls at all, the first one on the walk does. */
  lemma FallenFirst(s: Refs, n: NodeId)
    requires WellFormed(s.tree) && n in s.tree.up && n in s.refctr
    ensures n in Fallen(s, n) <==> s.refctr[n] == 1
  {
    assert NodeOk(s.tree, n);
    var c := s.tree.up[n];
    assert c[0] == n;
    if s.refctr[n] == 1 {
      assert Falls(s.refctr, c) > 0;
      assert c[..Falls(s.refctr, c)][0] == n;
    }
  }

  // ----- the locks of what falls -----

  /** A node that is locked is looked up, or one of its children is locked as well. */
  ghost predicate LockHeld(s: Refs, locks: map<NodeId, int>, d: NodeId)
  {
    d in locks && (locks[d] != 0 ==> Live(s, d) || exists c :: c in Children(s.tree, d) && c in locks && locks[c] != 0)
  }

  ghost predicate LocksHeld(s: Refs, locks: map<NodeId, int>)
  {
    forall d {:trigger LockHeld(s, locks, d)} :: d in s.tree.up ==> LockHeld(s, locks, d)
  }

  /** What delete_node asserts of every node it deletes. */
  predicate Unlocked(locks: map<NodeId, int>, nodes: set<NodeId>)
  {
    forall d :: d in nodes ==> d in locks && locks[d] == 0
  }

  lemma {:induction false} FallenAt(s: Refs, n: NodeId, locks: map<NodeId, int>, i: nat)
    requires RefsOk(s) && n in s.pins && n in s.tree.up && LocksHeld(s, locks) && i < Falls(s.refctr, s.tree.up[n])
    ensures s.tree.up[n][i] in locks && locks[s.tree.up[n][i]] == 0
    decreases i
  {
    var c := s.tree.up[n];
    var d := c[i];
    UnrefEffect(s, {}, n);
    WalkStep(s.tree, n, i);
    assert d in c[..Falls(s.refctr, c)];
    assert LockHeld(s, locks, d);
    if locks[d] != 0 {
      var x :| x in Children(s.tree, d) && x in locks && locks[x] != 0;
      var m :| 0 <= m < Falls(s.refctr, c) && c[m] == x;
      WalkStep(s.tree, n, m);
      assert c[m + 1] == d;
      if m + 1 < i {
        WalkDistinct(s.tree, n, m + 1, i);
      } else if i < m + 1 {
        WalkDistinct(s.tree, n, i, m + 1);
      }
      FallenAt(s, n, locks, m);
    }
  }

  /** Nothing that falls with a reference that is owed is locked. */
  lemma FallenUnlocked(s: Refs, n: NodeId, locks: map<NodeId, int>)
    requires RefsOk(s) && n in s.pins && n in s.tree.up && LocksHeld(s, locks)
    ensures Unlocked(locks, Fallen(s, n))
  {
    forall d | d in Fallen(s, n) ensures d in locks && locks[d] == 0 {
      var i :| 0 <= i < Falls(s.refctr, s.tree.up[n]) && s.tree.up[n][i] == d;
      FallenAt(s, n, locks, i);
    }
  }

  lemma LocksHeldUnlooked(s: Refs, n: NodeId, locks: map<NodeId, int>)
    requires n in s.nlookup && n in s.tree.up && LocksHeld(s, locks) && n in locks && locks[n] == 0
    ensures LocksHeld(LastLookupGone(s, n), locks)
  {
    var s1 := LastLookupGone(s, n);
    forall d | d in s1.tree.up ensures LockHeld(s1, locks, d) {
      assert LockHeld(s, locks, d);
      assert Children(s1.tree, d) == Children(s.tree, d);
    }
  }

  /**
    The assert of delete_node: giving back the last lookup of n deletes no locked node, exactly if
    n is not locked, or stays.
   */
  lemma ForgetUnlocked(s: Refs, n: NodeId, locks: map<NodeId, int>)
    requires RefsOk(s) && Live(s, n) && n != ROOT && n in s.refctr && LocksHeld(s, locks)
    ensures n in locks
    ensures Unlocked(locks, Fallen(LastLookupGone(s, n), n)) <==> locks[n] == 0 || s.refctr[n] > 1
  {
    var s1 := LastLookupGone(s, n);
    LastLookupKeeps(s, n);
    assert LockHeld(s, locks, n) && CountOk(s, n);
    FallenFirst(s1, n);
    if locks[n] == 0 {
      LocksHeldUnlooked(s, n, locks);
      FallenUnlocked(s1, n, locks);
    } else if s.refctr[n] > 1 {
      assert NodeOk(s1.tree, n);
      assert Fallen(s1, n) == {};
    }
  }

  // ----- cleaning the cache -----

  /** The end of fuse_clean_cache: the name goes first, and the node's own reference after the parent's. */
  ghost function CleanedRest(s1: Refs, n: NodeId): Refs
    requires RefsOk(s1) && n in s1.pins
  {
    StaysPinned(s1, n);
    Unref(Unhash(s1, n), n)
  }

  ghost function Cleaned(s: Refs, n: NodeId): Refs
    requires RefsOk(s) && n in s.nlookup && s.nlookup[n] > 0 && n != ROOT
  {
    LastLookupKeeps(s, n);
    CleanedRest(LastLookupGone(s, n), n)
  }

  /** A pinned node outlives the decrement of the parent it just left. */
  lemma StaysBehind(s1: Refs, n: NodeId)
    requires RefsOk(s1) && n in s1.tree.link && n in s1.pins
    ensures var p := s1.tree.link[n].parent; var r := Unname(s1, n);
      && p in r.pins && RefsOk(r) && p in r.tree.up && n !in r.tree.up[p] && n !in Fallen(r, p)
      && RefsOk(Unref(r, p)) && n in Unref(r, p).tree.up && n in Unref(r, p).pins && n !in Unref(r, p).tree.link
      && Unref(r, p).tree.up == r.tree.up - Fallen(r, p) && Unref(r, p).tree.link == r.tree.link - Fallen(r, p)
      && Unref(r, p).refctr[n] == s1.refctr[n]
  {
    var p, r := s1.tree.link[n].parent, Unname(s1, n);
    NameLostKeeps(s1, {}, n);
    WalkShrinks(s1.tree, n);
    UnrefEffect(r, {}, p);
    assert r.pins == s1.pins + multiset{p};
    assert n in Unref(r, p).refctr.Keys;
  }

  lemma StaysPinned(s1: Refs, n: NodeId)
    requires RefsOk(s1) && n in s1.pins
    ensures RefsOk(Unhash(s1, n)) && n in Unhash(s1, n).pins && n in Unhash(s1, n).tree.up
  {
    if n in s1.tree.link {
      StaysBehind(s1, n);
    }
  }

  /** Cleaning one node of the cache, whatever the order of its steps, is forgetting its last lookup. */
  lemma CleanIsForget(s: Refs, n: NodeId)
    requires RefsOk(s) && n in s.nlookup && s.nlookup[n] == 1 && s.refctr[n] == 1 && n != ROOT
    ensures Cleaned(s, n) == Forget(s, n, 1)
  {
    LastLookupKeeps(s, n);
    var s1 := LastLookupGone(s, n);
    if n in s1.tree.link {
      StaysPinned(s1, n);
      CleanSame(s1, n);
      Determined(Cleaned(s, n), Forget(s, n, 1));
    }
  }

  lemma CleanSame(s1: Refs, n: NodeId)
    requires RefsOk(s1) && n in s1.pins && s1.refctr[n] == 1 && n in s1.tree.link
    ensures var p := s1.tree.link[n].parent; var r := Unname(s1, n);
      && RefsOk(r) && p in r.tree.up && RefsOk(Unref(r, p)) && n in Unref(r, p).tree.up
      && RefsOk(Unref(Unref(r, p), n)) && RefsOk(Unref(s1, n))
      && Same(Unref(Unref(r, p), n), Unref(s1, n))
  {
    var p, r := s1.tree.link[n].parent, Unname(s1, n);
    StaysBehind(s1, n);
    UnrefEffect(s1, {}, n);
    UnrefEffect(r, {}, p);
    UnrefEffect(Unref(r, p), {}, n);
    EffectOfLoose(Unref(r, p), n);
    UnnameIs(s1, {}, n);
    var q := Unname(Decrement(s1, n), n);
    FallOfParent(s1, n, p, q);
    assert Fallen(s1, n) == {n} + Fallen(r, p);
    CleanMaps(s1, n, r, Fallen(r, p));
  }

  lemma CleanMaps(s1: Refs, n: NodeId, r: Refs, g: set<NodeId>)
    requires n in s1.tree.link && r == Unname(s1, n)
    ensures r.tree.link - g - {n} == s1.tree.link - ({n} + g)
    ensures (r.tree.up - g - {n}).Keys == (s1.tree.up - ({n} + g)).Keys
    ensures r.nlookup - g - {n} == s1.nlookup - ({n} + g)
    ensures r.pins - multiset{s1.tree.link[n].parent} == s1.pins
  {
  }

  // ----- a reference by itself: the lookup of "." -----

  function Pinned(s: Refs, n: NodeId): Refs
    requires n in s.refctr
  {
    s.(refctr := s.refctr[n := s.refctr[n] + 1], pins := s.pins + multiset{n})
  }

  lemma PinKeeps(s: Refs, n: NodeId)
    requires RefsOk(s) && n in s.refctr
    ensures RefsOk(Pinned(s, n)) && Pinned(s, n).refctr[n] > 1
  {
    var r := Pinned(s, n);
    assert CountOk(s, n);
    forall m | m in r.tree.up ensures CountOk(r, m) {
      assert CountOk(s, m);
    }
  }

  lemma PinBack(s: Refs, n: NodeId)
    requires n in s.refctr
    ensures Decrement(Pinned(s, n), n) == s
  {
    assert s.refctr[n := s.refctr[n] + 1][n := s.refctr[n]] == s.refctr;
    assert s.pins + multiset{n} - multiset{n} == s.pins;
  }

  /** A pin taken and given back leaves no trace. */
  lemma PinUnpin(s: Refs, n: NodeId)
    requires RefsOk(s) && n in s.refctr
    ensures RefsOk(Pinned(s, n)) && Unref(Pinned(s, n), n) == s
  {
    PinKeeps(s, n);
    PinBack(s, n);
  }

  // ----- names lost and gained -----

  ghost predicate NothingNewOnWalks(up: map<NodeId, seq<NodeId>>, up': map<NodeId, seq<NodeId>>)
  {
    forall m, x :: m in up && m in up' && x in up'[m] ==> x in up[m]
  }

  /** w has lost its name, if it had one; lookups are as given; no node is gone. */
  ghost predicate Lost(s: Refs, w: NodeId, lookups: map<NodeId, nat>, s': Refs)
  {
    && RefsOk(s') && Same(s', Refs(Tree(s.tree.link - {w}, map[], s.tree.up), map[], lookups, s.pins))
    && NothingNewOnWalks(s.tree.up, s'.tree.up)
    && forall d {:trigger Live(s', d)} :: Live(s, d) ==> Live(s', d)
  }

  /** w is now named at; no node is gone. */
  ghost predicate Gained(s: Refs, w: NodeId, at: Link, s': Refs)
  {
    && RefsOk(s') && Same(s', Refs(Tree(s.tree.link[w := at], map[], s.tree.up), map[], s.nlookup, s.pins))
    && forall m :: m in s.tree.up && w !in s.tree.up[m] ==> m in s'.tree.up && s'.tree.up[m] == s.tree.up[m]
  }

  lemma {:induction false} CutIncluded(c: seq<NodeId>, w: NodeId, x: NodeId)
    requires x in Cut(c, w)
    ensures x in c
  {
    if c != [] && c[0] != w && x != c[0] {
      CutIncluded(c[1..], w, x);
    }
  }

  /** unhash_name for a node whose parent the kernel looks at */
  lemma UnhashLoses(s: Refs, w: NodeId)
    requires RefsOk(s) && (w in s.tree.link ==> Live(s, s.tree.link[w].parent))
    ensures Lost(s, w, s.nlookup, Unhash(s, w))
  {
    var r := Unhash(s, w);
    if w in s.tree.link {
      UnhashUnderLive(s, w);
      forall m, x | m in s.tree.up && m in r.tree.up && x in r.tree.up[m] ensures x in s.tree.up[m] {
        CutIncluded(s.tree.up[m], w, x);
      }
    } else {
      assert s.tree.link - {w} == s.tree.link;
    }
  }

  lemma NamedGains(s: Refs, w: NodeId, at: Link)
    requires RefsOk(s) && w in s.tree.up && w !in s.tree.link && w != ROOT
    requires at.parent in s.tree.up && at.parent in s.refctr && w !in s.tree.up[at.parent] && at !in s.tree.index
    ensures Gained(s, w, at, Named(s, w, at))
  {
    NamedKeeps(s, w, at);
    AttachWellFormed(s.tree, w, at.parent, at.name);
  }

  lemma UnrememberKeeps(s: Refs, w: NodeId, remember: bool)
    requires RefsOk(s) && w in s.nlookup && (remember ==> s.nlookup[w] > 1)
    ensures RefsOk(Unremember(s, w, remember))
  {
    if remember {
      SomeLookupsKeep(s, w, 1);
    }
  }

  lemma NamesLeft(s: Refs, w: NodeId, lookups: map<NodeId, nat>, s': Refs, k: Link)
    requires RefsOk(s) && Lost(s, w, lookups, s') && k in s'.tree.index
    ensures k in s.tree.index && s.tree.index[k] == s'.tree.index[k] && s'.tree.index[k] != w
  {
    assert EntryOk(s'.tree, k);
    assert NodeOk(s.tree, s'.tree.index[k]);
  }

  /** w can be named at as soon as the nodes in held have lost their names. */
  ghost predicate Waiting(s: Refs, w: NodeId, at: Link, held: set<NodeId>)
  {
    && RefsOk(s) && w in s.tree.up && w != ROOT && Live(s, at.parent) && w !in s.tree.up[at.parent]
    && (at in s.tree.index ==> s.tree.index[at] in held)
  }

  /** w, which has no name, can be named at. */
  ghost predicate NameReady(s: Refs, w: NodeId, at: Link)
  {
    && RefsOk(s) && w in s.tree.up && w !in s.tree.link && w != ROOT
    && at.parent in s.tree.up && at.parent in s.refctr && w !in s.tree.up[at.parent] && at !in s.tree.index
  }

  lemma WaitingLost(s: Refs, w: NodeId, at: Link, held: set<NodeId>, x: NodeId, lookups: map<NodeId, nat>, s': Refs)
    requires Waiting(s, w, at, held) && Lost(s, x, lookups, s')
    ensures Waiting(s', w, at, held - {x})
  {
    assert w in s'.tree.up.Keys;
    assert Live(s', at.parent);
    if at in s'.tree.index {
      NamesLeft(s, x, lookups, s', at);
    }
  }

  lemma WaitingGained(s: Refs, w: NodeId, at: Link, x: NodeId, at': Link, s': Refs)
    requires Waiting(s, w, at, {}) && Gained(s, x, at', s') && at != at' && x !in s.tree.up[at.parent] && w != x
    requires w !in s.tree.link && x !in s.tree.link
    ensures NameReady(s', w, at)
  {
    assert w in s'.tree.up.Keys && at.parent in s'.tree.up.Keys && at.parent in s'.refctr.Keys;
    if at in s'.tree.index {
      NamesAfterGain(s, x, at', s', at);
    }
  }

  lemma NamesAfterGain(s: Refs, x: NodeId, at: Link, s': Refs, k: Link)
    requires RefsOk(s) && Gained(s, x, at, s') && k in s'.tree.index && x !in s.tree.link
    ensures k == at || k in s.tree.index
  {
    assert EntryOk(s'.tree, k);
    var n := s'.tree.index[k];
    if n != x {
      assert NodeOk(s.tree, n);
    }
  }

  /** The names after a rename: node is called at, if that name could be kept, and the replaced nodes are nameless. */
  ghost predicate Renamed(s: Refs, node: NodeId, replaced: set<NodeId>, at: Link, kept: bool,
                          lookups: map<NodeId, nat>, s': Refs)
  {
    var base := s.tree.link - replaced - {node};
    && RefsOk(s')
    && Same(s', Refs(Tree(if kept then base[node := at] else base, map[], s.tree.up), map[], lookups, s.pins))
  }

  /** What unlink_node takes away from the lookups of w. */
  function Unremembered(nlookup: map<NodeId, nat>, w: NodeId, remember: bool): map<NodeId, nat>
    requires w in nlookup && (remember ==> nlookup[w] > 1)
  {
    if remember then nlookup[w := nlookup[w] - 1] else nlookup
  }

  /** unlink_node, as a value */
  lemma UnlinkLoses(s: Refs, w: NodeId, remember: bool)
    requires RefsOk(s) && w in s.tree.link && w in s.nlookup && Live(s, s.tree.link[w].parent)
    requires remember ==> s.nlookup[w] > 1
    ensures RefsOk(Unremember(s, w, remember)) && Unlinked(s, w, remember) == Unhash(Unremember(s, w, remember), w)
    ensures Lost(s, w, Unremembered(s.nlookup, w, remember), Unlinked(s, w, remember))
  {
    UnrememberKeeps(s, w, remember);
    var u := Unremember(s, w, remember);
    NotOnOwnParentsWalk(s, w);
    UnhashLoses(u, w);
    forall d | Live(s, d) ensures Live(Unhash(u, w), d) {
      assert Live(u, d);
    }
  }

  /** unlink_node: the lookup the cache keeps is given back, then the name is lost. */
  ghost function Unlinked(s: Refs, w: NodeId, remember: bool): Refs
    requires RefsOk(s) && w in s.nlookup && (remember ==> s.nlookup[w] > 1)
  {
    UnrememberKeeps(s, w, remember);
    Unhash(Unremember(s, w, remember), w)
  }

  lemma NotOnOwnParentsWalk(s: Refs, w: NodeId)
    requires RefsOk(s) && w in s.tree.link
    ensures s.tree.link[w].parent in s.tree.up && w !in s.tree.up[s.tree.link[w].parent] && w != ROOT && w in s.tree.up
  {
    assert NodeOk(s.tree, w);
    WalkShrinks(s.tree, w);
  }

  // ----- rename_node -----

  /** The kernel has looked at whatever is unlinked, besides the lookup the cache holds. */
  ghost predicate CanUnlink(s: Refs, at: Link, remember: bool)
  {
    at in s.tree.index && remember ==> s.tree.index[at] in s.nlookup && s.nlookup[s.tree.index[at]] > 1
  }

  /** What remove_node may assume. */
  ghost predicate CanRemove(s: Refs, at: Link, remember: bool)
  {
    RefsOk(s) && Live(s, at.parent) && CanUnlink(s, at, remember)
  }

  /** remove_node */
  ghost function Removed(s: Refs, at: Link, remember: bool): Refs
    requires CanRemove(s, at, remember)
  {
    if at !in s.tree.index then s
    else
      EntryNode(s, at);
      Unlinked(s, s.tree.index[at], remember)
  }

  lemma RemovedKeeps(s: Refs, at: Link, remember: bool)
    requires CanRemove(s, at, remember)
    ensures RefsOk(Removed(s, at, remember)) && Removed(s, at, remember).tree == RemoveTree(s.tree, at)
    ensures at in s.tree.index ==>
              && s.tree.index[at] in s.nlookup
              && Lost(s, s.tree.index[at], Unremembered(s.nlookup, s.tree.index[at], remember),
                      Removed(s, at, remember))
  {
    if at in s.tree.index {
      var w := s.tree.index[at];
      EntryNode(s, at);
      UnlinkLoses(s, w, remember);
      UnhashUnderLive(Unremember(s, w, remember), w);
    }
  }

  /** Whoever is called at now. */
  function Holder(s: Refs, at: Link): set<NodeId>
  {
    if at in s.tree.index then {s.tree.index[at]} else {}
  }

  /** node can be called at once the one that has that name loses it. */
  ghost predicate Waits(s: Refs, node: NodeId, at: Link)
  {
    Waiting(s, node, at, Holder(s, at))
  }

  /** The lookups after the node called at, if there is one, is unlinked. */
  function LookupsLeft(s: Refs, at: Link, remember: bool): map<NodeId, nat>
  {
    if at in s.tree.index && s.tree.index[at] in s.nlookup && s.nlookup[s.tree.index[at]] > 1
    then Unremembered(s.nlookup, s.tree.index[at], remember) else s.nlookup
  }

  /** The name at is free; nobody else has lost anything. */
  ghost predicate Cleared(s: Refs, node: NodeId, at: Link, remember: bool, s': Refs)
  {
    && Waiting(s', node, at, {})
    && Same(s', Refs(Tree(s.tree.link - Holder(s, at), map[], s.tree.up), map[], LookupsLeft(s, at, remember), s.pins))
    && (node in s.tree.link && Live(s, s.tree.link[node].parent) ==> Live(s', s.tree.link[node].parent))
  }

  lemma EntryNode(s: Refs, at: Link)
    requires RefsOk(s) && at in s.tree.index
    ensures var w := s.tree.index[at];
      w in s.tree.link && s.tree.link[w] == at && w in s.nlookup && w in s.tree.up && w in s.refctr
  {
    assert EntryOk(s.tree, at);
  }

  lemma RoomMade(s: Refs, node: NodeId, at: Link, remember: bool, s': Refs)
    requires Waits(s, node, at) && CanUnlink(s, at, remember)
    requires if at in s.tree.index then
               && s.tree.index[at] in s.nlookup
               && Lost(s, s.tree.index[at], Unremembered(s.nlookup, s.tree.index[at], remember), s')
             else s' == s
    ensures Cleared(s, node, at, remember, s')
  {
    if at in s.tree.index {
      var w := s.tree.index[at];
      WaitingLost(s, node, at, {w}, w, Unremembered(s.nlookup, w, remember), s');
      assert {w} - {w} == {};
    } else {
      assert s.tree.link - {} == s.tree.link;
    }
  }

  /**
    What rename_node leaves behind: the node is called dst, if that name could be kept, and who was
    called so before is nameless.
   */
  ghost predicate RenameDone(s: Refs, src: Link, dst: Link, remember: bool, kept: bool, s': Refs)
  {
    && src in s.tree.index
    && Renamed(s, s.tree.index[src], Holder(s, dst), dst, kept, LookupsLeft(s, dst, remember), s')
  }

  /** s has lost the name of node, and that of the node it replaces. */
  ghost predicate MidRename(s0: Refs, node: NodeId, at: Link, remember: bool, s: Refs)
  {
    && NameReady(s, node, at)
    && Same(s, Refs(Tree(s0.tree.link - Holder(s0, at) - {node}, map[], s0.tree.up), map[],
                    LookupsLeft(s0, at, remember), s0.pins))
  }

  lemma MoveReady(s0: Refs, node: NodeId, at: Link, remember: bool, s1: Refs, s2: Refs)
    requires Cleared(s0, node, at, remember, s1) && Lost(s1, node, s1.nlookup, s2)
    ensures MidRename(s0, node, at, remember, s2)
  {
    WaitingLost(s1, node, at, {}, node, s1.nlookup, s2);
    assert {} - {node} == {};
  }

  lemma MoveFailed(s0: Refs, src: Link, dst: Link, remember: bool, s2: Refs)
    requires src in s0.tree.index && MidRename(s0, s0.tree.index[src], dst, remember, s2)
    ensures RenameDone(s0, src, dst, remember, false, s2)
  {
  }

  lemma MoveDone(s0: Refs, src: Link, dst: Link, remember: bool, s2: Refs, s3: Refs)
    requires src in s0.tree.index && MidRename(s0, s0.tree.index[src], dst, remember, s2)
    requires Gained(s2, s0.tree.index[src], dst, s3)
    ensures RenameDone(s0, src, dst, remember, true, s3)
  {
  }

  /** What the moving part of rename_node may assume; the path locks give the last part. */
  ghost predicate CanMove(s: Refs, src: Link, dst: Link, remember: bool)
  {
    && RefsOk(s) && Live(s, src.parent) && Live(s, dst.parent) && CanUnlink(s, dst, remember)
    && (src in s.tree.index ==> Waits(s, s.tree.index[src], dst))
  }

  /** What rename_node may assume: if it hides a file it never takes a name that is there. */
  ghost predicate CanRename(s: Refs, src: Link, dst: Link, remember: bool, hiding: bool)
  {
    RefsOk(s) && dst.parent in s.tree.up && ((dst in s.tree.index && hiding) || CanMove(s, src, dst, remember))
  }

  /** rename_node, before the node that moves loses its name: the new name is free. */
  ghost function Roomy(s: Refs, dst: Link, remember: bool): Refs
    requires RefsOk(s) && CanUnlink(s, dst, remember)
  {
    if dst !in s.tree.index then s
    else
      EntryNode(s, dst);
      Unlinked(s, s.tree.index[dst], remember)
  }

  /** rename_node, step by step; keeps is false when the copy of the new name cannot be allocated. */
  ghost function Moved(s: Refs, src: Link, dst: Link, remember: bool, keeps: bool): Refs
    requires CanMove(s, src, dst, remember) && src in s.tree.index
  {
    MoveSteps(s, src, dst, remember);
    var node := s.tree.index[src];
    var s2 := Unhash(Roomy(s, dst, remember), node);
    if keeps then Named(s2, node, dst) else s2
  }

  /** rename_node; hiding says that the name must not be taken. */
  ghost function RenamedTo(s: Refs, src: Link, dst: Link, remember: bool, hiding: bool, keeps: bool): Refs
    requires CanRename(s, src, dst, remember, hiding)
  {
    if src !in s.tree.index || (dst in s.tree.index && hiding) then s else Moved(s, src, dst, remember, keeps)
  }

  lemma RoomyClears(s: Refs, src: Link, dst: Link, remember: bool)
    requires CanMove(s, src, dst, remember) && src in s.tree.index
    ensures Cleared(s, s.tree.index[src], dst, remember, Roomy(s, dst, remember))
    ensures Roomy(s, dst, remember).tree == if dst in s.tree.index then Detach(s.tree, s.tree.index[dst]) else s.tree
  {
    if dst in s.tree.index {
      var w := s.tree.index[dst];
      EntryNode(s, dst);
      UnlinkLoses(s, w, remember);
      UnhashUnderLive(Unremember(s, w, remember), w);
    }
    RoomMade(s, s.tree.index[src], dst, remember, Roomy(s, dst, remember));
  }

  /** Once there is room, the node that moves loses its name, and is ready for the new one. */
  lemma MoveSteps(s: Refs, src: Link, dst: Link, remember: bool)
    requires CanMove(s, src, dst, remember) && src in s.tree.index
    ensures RefsOk(Roomy(s, dst, remember))
    ensures MidRename(s, s.tree.index[src], dst, remember, Unhash(Roomy(s, dst, remember), s.tree.index[src]))
    ensures dst.parent in Unhash(Roomy(s, dst, remember), s.tree.index[src]).tree.up
            && dst.parent in Unhash(Roomy(s, dst, remember), s.tree.index[src]).refctr
    ensures Unhash(Roomy(s, dst, remember), s.tree.index[src]).tree ==
            Detach(Roomy(s, dst, remember).tree, s.tree.index[src])
  {
    var node, s1 := s.tree.index[src], Roomy(s, dst, remember);
    EntryNode(s, src);
    RoomyClears(s, src, dst, remember);
    LosesAfterRoom(s1, node);
    MoveReady(s, node, dst, remember, s1, Unhash(s1, node));
  }

  lemma LosesAfterRoom(s1: Refs, node: NodeId)
    requires RefsOk(s1) && (node in s1.tree.link ==> Live(s1, s1.tree.link[node].parent))
    ensures Lost(s1, node, s1.nlookup, Unhash(s1, node))
    ensures Unhash(s1, node).tree == Detach(s1.tree, node)
  {
    UnhashLoses(s1, node);
    if node in s1.tree.link {
      UnhashUnderLive(s1, node);
    }
  }

  /** A rename keeps every count exact, and leaves the names that rename_node promises. */
  lemma MovedIs(s: Refs, src: Link, dst: Link, remember: bool, keeps: bool)
    requires CanMove(s, src, dst, remember) && src in s.tree.index
    ensures RenameDone(s, src, dst, remember, keeps, Moved(s, src, dst, remember, keeps))
  {
    MoveSteps(s, src, dst, remember);
    var node := s.tree.index[src];
    var s2 := Unhash(Roomy(s, dst, remember), node);
    if keeps {
      NamedGains(s2, node, dst);
      MoveDone(s, src, dst, remember, s2, Named(s2, node, dst));
    } else {
      MoveFailed(s, src, dst, remember, s2);
    }
  }

  /** As far as names go, rename_node does to the counted index what it does to the tree of locked paths. */
  lemma RenameTreeIs(s: Refs, src: Link, dst: Link, remember: bool, hiding: bool, keeps: bool)
    requires CanRename(s, src, dst, remember, hiding)
    ensures dst.parent in s.tree.up
    ensures RenamedTo(s, src, dst, remember, hiding, keeps).tree == RenameTree(s.tree, src, dst, hiding, keeps)
  {
    if src in s.tree.index && !(dst in s.tree.index && hiding) {
      MoveSteps(s, src, dst, remember);
      RoomyClears(s, src, dst, remember);
    }
  }

  /** RenameDone leaves no choice. */
  lemma RenameDetermined(s: Refs, src: Link, dst: Link, remember: bool, keeps: bool, a: Refs, b: Refs)
    requires RenameDone(s, src, dst, remember, keeps, a) && RenameDone(s, src, dst, remember, keeps, b)
    ensures a == b
  {
    Determined(a, b);
  }

  /** The names decide every lookup. */
  lemma LookupIsName(s: Refs, k: Link, n: NodeId)
    requires RefsOk(s)
    ensures PathTree.Lookup(s.tree, k.parent, k.name) == Some(n) <==> n in s.tree.link && s.tree.link[n] == k
  {
    assert k == Link(k.parent, k.name);
    if k in s.tree.index {
      assert EntryOk(s.tree, k);
    }
    if n in s.tree.link {
      assert NodeOk(s.tree, n);
    }
  }

  /**
    After a rename the new name finds the node, the old one finds nothing, and every other name
    finds what it found before.
   */
  lemma RenameResolves(s: Refs, src: Link, dst: Link, remember: bool, s': Refs, k: Link)
    requires RefsOk(s) && RenameDone(s, src, dst, remember, true, s')
    ensures PathTree.Lookup(s'.tree, dst.parent, dst.name) == Some(s.tree.index[src])
    ensures src != dst ==> PathTree.Lookup(s'.tree, src.parent, src.name) == None
    ensures k != src && k != dst ==>
              PathTree.Lookup(s'.tree, k.parent, k.name) == PathTree.Lookup(s.tree, k.parent, k.name)
  {
    var node := s.tree.index[src];
    LookupIsName(s', dst, node);
    EntryNode(s, src);
    if src != dst && src in s'.tree.index {
      EntryBack(s, s', src, dst, remember);
    }
    if k != src && k != dst {
      OtherNames(s, src, dst, remember, s', k);
    }
  }

  lemma OtherNames(s: Refs, src: Link, dst: Link, remember: bool, s': Refs, k: Link)
    requires RefsOk(s) && RenameDone(s, src, dst, remember, true, s') && k != src && k != dst
    ensures PathTree.Lookup(s'.tree, k.parent, k.name) == PathTree.Lookup(s.tree, k.parent, k.name)
  {
    assert k == Link(k.parent, k.name);
    EntryNode(s, src);
    if dst in s.tree.index {
      EntryNode(s, dst);
    }
    if k in s.tree.index {
      EntryNode(s, k);
      LookupIsName(s', k, s.tree.index[k]);
    } else if k in s'.tree.index {
      EntryNode(s', k);
      LookupIsName(s, k, s'.tree.index[k]);
    }
  }

  /** The old name is nobody's any more. */
  lemma EntryBack(s: Refs, s': Refs, src: Link, dst: Link, remember: bool)
    requires RefsOk(s) && RenameDone(s, src, dst, remember, true, s') && src != dst
    ensures src !in s'.tree.index
  {
    if src in s'.tree.index {
      EntryNode(s', src);
      LookupIsName(s, src, s'.tree.index[src]);
    }
  }

  /** A new node is found by its name, and every other name finds what it found before. */
  lemma CreatedResolves(s: Refs, n: NodeId, at: Link, lookups: nat, k: Link)
    requires at.parent in s.tree.up && at.parent in s.refctr && at.parent != n
    ensures PathTree.Lookup(Created(s, n, at, lookups).tree, k.parent, k.name) ==
            if k == at then Some(n) else PathTree.Lookup(s.tree, k.parent, k.name)
  {
    assert k == Link(k.parent, k.name);
  }

  /** The name of an unlinked node finds nothing, and every other name what it found before. */
  lemma RemovedResolves(s: Refs, at: Link, remember: bool, k: Link)
    requires CanRemove(s, at, remember)
    ensures PathTree.Lookup(Removed(s, at, remember).tree, k.parent, k.name) ==
            if k == at then None else PathTree.Lookup(s.tree, k.parent, k.name)
  {
    RemovedKeeps(s, at, remember);
    assert k == Link(k.parent, k.name);
    if at in s.tree.index {
      EntryNode(s, at);
    }
  }

  // ----- exchange_node -----

  /** What exchange_node may assume: the names are two, and neither directory goes into itself. */
  ghost predicate CanExchange(s: Refs, src: Link, dst: Link)
  {
    && RefsOk(s) && src != dst && Live(s, src.parent) && Live(s, dst.parent)
    && (src in s.tree.index ==> Waiting(s, s.tree.index[src], dst, Holder(s, src) + Holder(s, dst)))
    && (dst in s.tree.index ==> Waiting(s, s.tree.index[dst], src, Holder(s, src) + Holder(s, dst)))
  }

  /** The names after the first j of the two new names are given. */
  function Swapped(s: Refs, src: Link, dst: Link, j: nat): map<NodeId, Link>
  {
    var base := s.tree.link - Holder(s, src) - Holder(s, dst);
    var one := if j > 0 && src in s.tree.index then base[s.tree.index[src] := dst] else base;
    if j > 1 && dst in s.tree.index then one[s.tree.index[dst] := src] else one
  }

  /** The first j steps of the second half of exchange_node are done. */
  ghost predicate Exchanged(s: Refs, src: Link, dst: Link, j: nat, s': Refs)
  {
    RefsOk(s') && Same(s', s.(tree := s.tree.(link := Swapped(s, src, dst, j))))
  }

  /** x has lost the name at, if anyone had it. */
  ghost predicate LostAt(s: Refs, at: Link, s': Refs)
  {
    if at in s.tree.index then Lost(s, s.tree.index[at], s.nlookup, s') else s' == s
  }

  /** Both names are free, and both nodes can take theirs. */
  ghost predicate ReadyToSwap(s: Refs, src: Link, dst: Link, s': Refs)
  {
    && Exchanged(s, src, dst, 0, s')
    && (src in s.tree.index ==> NameReady(s', s.tree.index[src], dst))
    && (dst in s.tree.index ==> NameReady(s', s.tree.index[dst], src) && Waiting(s', s.tree.index[dst], src, {}))
    && (src in s.tree.index && dst in s.tree.index ==>
          && s.tree.index[src] != s.tree.index[dst] && src.parent in s'.tree.up
          && s.tree.index[src] !in s'.tree.up[src.parent])
  }

  lemma WaitingAt(s: Refs, w: NodeId, at: Link, held: set<NodeId>, x: Link, s': Refs)
    requires Waiting(s, w, at, held) && LostAt(s, x, s')
    ensures Waiting(s', w, at, held - Holder(s, x))
  {
    if x in s.tree.index {
      WaitingLost(s, w, at, held, s.tree.index[x], s.nlookup, s');
    } else {
      assert held - {} == held;
    }
  }

  lemma ReadyAfterBoth(s0: Refs, src: Link, dst: Link, s1: Refs, s2: Refs)
    requires CanExchange(s0, src, dst) && LostAt(s0, src, s1) && RefsOk(s1)
    requires LostSecond(s0, dst, s1, s2)
    ensures ReadyToSwap(s0, src, dst, s2)
  {
    var held := Holder(s0, src) + Holder(s0, dst);
    if src in s0.tree.index {
      WaitingAt(s0, s0.tree.index[src], dst, held, src, s1);
      WaitingSecond(s0, s0.tree.index[src], dst, held - Holder(s0, src), dst, s1, s2);
      assert held - Holder(s0, src) - Holder(s0, dst) == {};
    }
    if dst in s0.tree.index {
      WaitingAt(s0, s0.tree.index[dst], src, held, src, s1);
      WaitingSecond(s0, s0.tree.index[dst], src, held - Holder(s0, src), dst, s1, s2);
      assert held - Holder(s0, src) - Holder(s0, dst) == {};
    }
    if src in s0.tree.index && dst in s0.tree.index {
      EntryNode(s0, src);
      EntryNode(s0, dst);
      NotOnOwnParentsWalk(s0, s0.tree.index[src]);
      assert src.parent in s1.tree.up.Keys && src.parent in s2.tree.up.Keys;
    }
  }

  /** The second node found at the start loses its name as well. */
  ghost predicate LostSecond(s0: Refs, dst: Link, s1: Refs, s2: Refs)
  {
    if dst in s0.tree.index then Lost(s1, s0.tree.index[dst], s1.nlookup, s2) else s2 == s1
  }

  lemma WaitingSecond(s0: Refs, w: NodeId, at: Link, held: set<NodeId>, dst: Link, s1: Refs, s2: Refs)
    requires Waiting(s1, w, at, held) && LostSecond(s0, dst, s1, s2)
    ensures Waiting(s2, w, at, held - Holder(s0, dst))
  {
    if dst in s0.tree.index {
      WaitingLost(s1, w, at, held, s0.tree.index[dst], s1.nlookup, s2);
    } else {
      assert held - {} == held;
    }
  }

  lemma SwapFirst(s0: Refs, src: Link, dst: Link, s2: Refs, s3: Refs)
    requires ReadyToSwap(s0, src, dst, s2) && src != dst
    requires if src in s0.tree.index then Gained(s2, s0.tree.index[src], dst, s3) else s3 == s2
    ensures Exchanged(s0, src, dst, 1, s3)
    ensures dst in s0.tree.index ==> NameReady(s3, s0.tree.index[dst], src)
  {
    if src in s0.tree.index && dst in s0.tree.index {
      WaitingGained(s2, s0.tree.index[dst], src, s0.tree.index[src], dst, s3);
    }
  }

  lemma SwapSecond(s0: Refs, src: Link, dst: Link, s3: Refs, s4: Refs)
    requires Exchanged(s0, src, dst, 1, s3)
    requires if dst in s0.tree.index then Gained(s3, s0.tree.index[dst], src, s4) else s4 == s3
    ensures Exchanged(s0, src, dst, 2, s4)
  {
  }

  /** exchange_node, after the first of the two nodes has lost its name ... */
  ghost function LessFirst(s: Refs, src: Link): Refs
    requires RefsOk(s)
  {
    if src in s.tree.index then Unhash(s, s.tree.index[src]) else s
  }

  /** ... after both have ... */
  ghost function LessBoth(s: Refs, src: Link, dst: Link): Refs
    requires CanExchange(s, src, dst)
  {
    FirstLost(s, src, dst);
    if dst in s.tree.index then Unhash(LessFirst(s, src), s.tree.index[dst]) else LessFirst(s, src)
  }

  /** ... after the first has its new name ... */
  ghost function PlusFirst(s: Refs, src: Link, dst: Link): Refs
    requires CanExchange(s, src, dst)
  {
    BothLost(s, src, dst);
    if src in s.tree.index then Named(LessBoth(s, src, dst), s.tree.index[src], dst) else LessBoth(s, src, dst)
  }

  /** ... and all of it; keepsOld and keepsNew say whether the copies of the two names can be allocated. */
  ghost function ExchangedFor(s: Refs, src: Link, dst: Link, keepsOld: bool, keepsNew: bool): Refs
    requires CanExchange(s, src, dst)
  {
    if src in s.tree.index && !keepsOld then LessBoth(s, src, dst)
    else
      FirstGained(s, src, dst);
      if dst in s.tree.index && keepsNew then Named(PlusFirst(s, src, dst), s.tree.index[dst], src)
      else PlusFirst(s, src, dst)
  }

  lemma FirstLost(s: Refs, src: Link, dst: Link)
    requires CanExchange(s, src, dst)
    ensures RefsOk(LessFirst(s, src)) && LostAt(s, src, LessFirst(s, src))
    ensures LessFirst(s, src).tree == if src in s.tree.index then Detach(s.tree, s.tree.index[src]) else s.tree
  {
    ExchangeParents(s, src, dst);
    if src in s.tree.index {
      LosesAfterRoom(s, s.tree.index[src]);
    }
  }

  lemma BothLost(s: Refs, src: Link, dst: Link)
    requires CanExchange(s, src, dst)
    ensures ReadyToSwap(s, src, dst, LessBoth(s, src, dst))
    ensures src in s.tree.index ==>
              dst.parent in LessBoth(s, src, dst).tree.up && dst.parent in LessBoth(s, src, dst).refctr
    ensures LessBoth(s, src, dst).tree ==
            var t1 := if src in s.tree.index then Detach(s.tree, s.tree.index[src]) else s.tree;
            if dst in s.tree.index then Detach(t1, s.tree.index[dst]) else t1
  {
    var s1 := LessFirst(s, src);
    FirstLost(s, src, dst);
    SecondParent(s, src, dst, s1);
    if dst in s.tree.index {
      LosesAfterRoom(s1, s.tree.index[dst]);
    }
    ReadyAfterBoth(s, src, dst, s1, LessBoth(s, src, dst));
  }

  lemma FirstGained(s: Refs, src: Link, dst: Link)
    requires CanExchange(s, src, dst)
    ensures Exchanged(s, src, dst, 1, PlusFirst(s, src, dst))
    ensures dst in s.tree.index ==> NameReady(PlusFirst(s, src, dst), s.tree.index[dst], src)
    ensures dst in s.tree.index ==>
              src.parent in PlusFirst(s, src, dst).tree.up && src.parent in PlusFirst(s, src, dst).refctr
  {
    var s2 := LessBoth(s, src, dst);
    BothLost(s, src, dst);
    if src in s.tree.index {
      NamedGains(s2, s.tree.index[src], dst);
    }
    SwapFirst(s, src, dst, s2, PlusFirst(s, src, dst));
  }

  /** An exchange keeps every count exact, and leaves the names of the steps that succeed. */
  lemma ExchangedIs(s: Refs, src: Link, dst: Link, keepsOld: bool, keepsNew: bool)
    requires CanExchange(s, src, dst)
    ensures Exchanged(s, src, dst, ExchangeSteps(s, src, dst, keepsOld, keepsNew),
                      ExchangedFor(s, src, dst, keepsOld, keepsNew))
  {
    BothLost(s, src, dst);
    FirstGained(s, src, dst);
    if !(src in s.tree.index && !keepsOld) {
      if dst in s.tree.index && keepsNew {
        NamedGains(PlusFirst(s, src, dst), s.tree.index[dst], src);
      }
      if dst !in s.tree.index || keepsNew {
        SwapSecond(s, src, dst, PlusFirst(s, src, dst), ExchangedFor(s, src, dst, keepsOld, keepsNew));
      }
    }
  }

  /** As far as names go, exchange_node does to the counted index what it does to the tree of locked paths. */
  lemma ExchangeTreeIs(s: Refs, src: Link, dst: Link, keepsOld: bool, keepsNew: bool)
    requires CanExchange(s, src, dst)
    ensures src.parent in s.tree.up && dst.parent in s.tree.up
    ensures ExchangedFor(s, src, dst, keepsOld, keepsNew).tree == ExchangeTree(s.tree, src, dst, keepsOld, keepsNew)
  {
    BothLost(s, src, dst);
    FirstGained(s, src, dst);
  }

  /** Exchanged leaves no choice. */
  lemma ExchangeDetermined(s: Refs, src: Link, dst: Link, j: nat, a: Refs, b: Refs)
    requires Exchanged(s, src, dst, j, a) && Exchanged(s, src, dst, j, b)
    ensures a == b
  {
    Determined(a, b);
  }

  /** Where both names could be kept, each finds what the other found, and every other name what it found before. */
  lemma ExchangeResolves(s: Refs, src: Link, dst: Link, s': Refs, k: Link)
    requires CanExchange(s, src, dst) && Exchanged(s, src, dst, 2, s')
    ensures PathTree.Lookup(s'.tree, dst.parent, dst.name) == PathTree.Lookup(s.tree, src.parent, src.name)
    ensures PathTree.Lookup(s'.tree, src.parent, src.name) == PathTree.Lookup(s.tree, dst.parent, dst.name)
    ensures k != src && k != dst ==>
              PathTree.Lookup(s'.tree, k.parent, k.name) == PathTree.Lookup(s.tree, k.parent, k.name)
  {
    SwappedNames(s, src, dst, s', src);
    SwappedNames(s, src, dst, s', dst);
    if k != src && k != dst {
      UnswappedName(s, src, dst, s', k);
    }
  }

  lemma UnswappedName(s: Refs, src: Link, dst: Link, s': Refs, k: Link)
    requires CanExchange(s, src, dst) && Exchanged(s, src, dst, 2, s') && k != src && k != dst
    ensures PathTree.Lookup(s'.tree, k.parent, k.name) == PathTree.Lookup(s.tree, k.parent, k.name)
  {
    assert k == Link(k.parent, k.name);
    if src in s.tree.index {
      EntryNode(s, src);
    }
    if dst in s.tree.index {
      EntryNode(s, dst);
    }
    if k in s.tree.index {
      EntryNode(s, k);
      LookupIsName(s', k, s.tree.index[k]);
    } else if k in s'.tree.index {
      EntryNode(s', k);
      LookupIsName(s, k, s'.tree.index[k]);
    }
  }

  lemma SwappedNames(s: Refs, src: Link, dst: Link, s': Refs, k: Link)
    requires CanExchange(s, src, dst) && Exchanged(s, src, dst, 2, s') && (k == src || k == dst)
    ensures var k' := if k == src then dst else src;
      PathTree.Lookup(s'.tree, k'.parent, k'.name) == PathTree.Lookup(s.tree, k.parent, k.name)
  {
    var k' := if k == src then dst else src;
    if src in s.tree.index {
      EntryNode(s, src);
    }
    if dst in s.tree.index {
      EntryNode(s, dst);
    }
    if k in s.tree.index {
      LookupIsName(s', k', s.tree.index[k]);
    } else if k' in s'.tree.index {
      EntryNode(s', k');
      LookupIsName(s, k', s'.tree.index[k']);
    }
  }

  /** How many steps of the second half of exchange_node succeed: a node that is not there needs no name. */
  function ExchangeSteps(s: Refs, src: Link, dst: Link, keepsOld: bool, keepsNew: bool): nat
  {
    if src in s.tree.index && !keepsOld then 0
    else if dst in s.tree.index && !keepsNew then 1
    else 2
  }

  lemma ExchangeParents(s: Refs, src: Link, dst: Link)
    requires CanExchange(s, src, dst)
    ensures src in s.tree.index ==>
              && s.tree.index[src] in s.tree.up
              && (s.tree.index[src] in s.tree.link ==> Live(s, s.tree.link[s.tree.index[src]].parent))
  {
    if src in s.tree.index {
      EntryNode(s, src);
    }
  }

  lemma SecondParent(s0: Refs, src: Link, dst: Link, s1: Refs)
    requires CanExchange(s0, src, dst) && LostAt(s0, src, s1)
    ensures dst in s0.tree.index ==>
              && s0.tree.index[dst] in s1.tree.up
              && (s0.tree.index[dst] in s1.tree.link ==> Live(s1, s1.tree.link[s0.tree.index[dst]].parent))
  {
    if dst in s0.tree.index {
      EntryNode(s0, dst);
      assert s0.tree.index[dst] in s1.tree.up.Keys;
      assert Live(s0, dst.parent) && Live(s1, dst.parent);
    }
  }
}
