/**
  The path-lock code itself, walking the parent pointers and changing the
  lock words one at a time. Each method is proved to take the step of the
  transition system that it stands for.
 */
module PathMachine {
  import opened Wrappers
  import opened PathTree
  import opened PathLocks
  import opened PathRequests
  import opened PathQueue
  import opened PathRuns

  /** The text that try_get_path puts in front of tail while it passes nodes. */
  function Text(link: map<NodeId, Link>, nodes: seq<NodeId>, tail: string): string
    requires forall n :: n in nodes ==> n in link
  {
    if nodes == [] then tail else Text(link, nodes[1..], "/" + link[nodes[0]].name + tail)
  }

  function TailOf(leg: Leg): string
  {
    if leg.name.Some? then "/" + leg.name.value else ""
  }

  lemma BodyNamed(t: Tree, n: NodeId)
    requires WellFormed(t) && n in t.up
    ensures forall m :: m in Body(t, n) ==> m in t.link
  {
    forall m | m in Body(t, n) ensures m in t.link {
      var k :| 0 <= k < |t.up[n]| - 1 && t.up[n][k] == m;
      WalkStep(t, n, k);
    }
  }

  /** The path of a leg, as given to the file system. */
  function PathOf(t: Tree, leg: Leg): string
    requires leg.node in t.up && forall m :: m in Body(t, leg.node) ==> m in t.link
  {
    var s := Text(t.link, Body(t, leg.node), TailOf(leg));
    if s == "" then "/" else s
  }

  /** The names of the nodes, which are met on the way up, from the root down. */
  function NamesDown(link: map<NodeId, Link>, nodes: seq<NodeId>): seq<string>
    requires forall n :: n in nodes ==> n in link
  {
    if nodes == [] then [] else NamesDown(link, nodes[1..]) + [link[nodes[0]].name]
  }

  /** The names of a path. */
  function NamesOf(t: Tree, leg: Leg): seq<string>
    requires leg.node in t.up && forall m :: m in Body(t, leg.node) ==> m in t.link
  {
    NamesDown(t.link, Body(t, leg.node)) + if leg.name.Some? then [leg.name.value] else []
  }

  /** Each name behind a slash. */
  function Slashed(names: seq<string>): string
  {
    if names == [] then "" else "/" + names[0] + Slashed(names[1..])
  }

  lemma {:induction false} SlashedAppend(names: seq<string>, more: seq<string>)
    ensures Slashed(names + more) == Slashed(names) + Slashed(more)
  {
    if names == [] {
      assert names + more == more;
    } else {
      SlashedAppend(names[1..], more);
      assert (names + more)[1..] == names[1..] + more;
    }
  }

  lemma {:induction false} TextIs(link: map<NodeId, Link>, nodes: seq<NodeId>, tail: string)
    requires forall n :: n in nodes ==> n in link
    ensures Text(link, nodes, tail) == Slashed(NamesDown(link, nodes)) + tail
    decreases |nodes|
  {
    if nodes != [] {
      var others, first := NamesDown(link, nodes[1..]), link[nodes[0]].name;
      TextIs(link, nodes[1..], "/" + first + tail);
      SlashedAppend(others, [first]);
      OneSlashed(first);
      assert Slashed(others) + ("/" + first + tail) == Slashed(others) + ("/" + first) + tail;
    }
  }

  lemma OneSlashed(name: string)
    ensures Slashed([name]) == "/" + name
  {
    assert [name][1..] == [] && "/" + name + "" == "/" + name;
  }

  /** A granted write request finds the child it names free, and locks it. */
  lemma NamedIsLocked(t: Tree, word: map<NodeId, int>, leg: Leg, memory: nat)
    requires WellFormed(t) && LegOk(t, leg) && word.Keys == t.up.Keys
    ensures var a := TryLeg(t, word, leg, memory);
      a.err == Ok && leg.write && Link(leg.node, leg.name.value) in t.index ==>
        var w := t.index[Link(leg.node, leg.name.value)];
        w in word && word[w] == 0 && w in a.word && a.word[w] == TREELOCK_WRITE
  {
    LegDoes(t, word, leg, memory);
    if leg.write && Link(leg.node, leg.name.value) in t.index {
      var w := t.index[Link(leg.node, leg.name.value)];
      LegShape(t, leg);
      assert IsNamed(t, leg, w);
    }
  }

  /** The path text is every name from the root down, each behind one slash; for the root itself it is a slash. */
  lemma PathTextIs(t: Tree, leg: Leg)
    requires leg.node in t.up && forall m :: m in Body(t, leg.node) ==> m in t.link
    ensures var names := NamesOf(t, leg); PathOf(t, leg) == if names == [] then "/" else Slashed(names)
  {
    var above := NamesDown(t.link, Body(t, leg.node));
    TextIs(t.link, Body(t, leg.node), TailOf(leg));
    if leg.name.Some? {
      SlashedAppend(above, [leg.name.value]);
      OneSlashed(leg.name.value);
    } else {
      assert NamesOf(t, leg) == above;
    }
  }

  lemma BumpStep(word: map<NodeId, int>, c: seq<NodeId>, k: nat)
    requires k < |c| && c[k] in word && c[k] !in c[..k]
    ensures c[k] in Bump(word, c[..k]) && Bump(word, c[..k])[c[k]] == word[c[k]]
    ensures Bump(word, c[..k + 1]) == Bump(word, c[..k])[c[k] := word[c[k]] + 1]
  {
    assert c[..k + 1] == c[..k] + [c[k]];
  }

  lemma DropStep(word: map<NodeId, int>, c: seq<NodeId>, k: nat)
    requires k < |c| && c[k] in word && c[k] !in c[..k]
    ensures c[k] in Drop(word, c[..k]) && Drop(word, c[..k])[c[k]] == word[c[k]]
    ensures Drop(word, c[..k + 1]) == Drop(word, c[..k])[c[k] := DropOne(word[c[k]])]
  {
    assert c[..k + 1] == c[..k] + [c[k]];
  }

  lemma WalkFresh(t: Tree, n: NodeId, k: nat)
    requires WellFormed(t) && n in t.up && k < |t.up[n]|
    ensures t.up[n][k] !in t.up[n][..k]
  {
    if t.up[n][k] in t.up[n][..k] {
      var i :| 0 <= i < k && t.up[n][i] == t.up[n][k];
      WalkDistinct(t, n, i, k);
    }
  }

  /** What the walk knows at position k. */
  lemma WalkAt(t: Tree, n: NodeId, k: nat)
    requires WellFormed(t) && n in t.up && k < |t.up[n]|
    ensures t.up[n][k] in t.up && t.up[n][k] !in t.up[n][..k] && t.up[n][0] == n
    ensures t.up[n][k] in t.link <==> k + 1 < |t.up[n]|
    ensures k + 1 < |t.up[n]| ==> t.link[t.up[n][k]].parent == t.up[n][k + 1] && t.up[n][k] != ROOT
    ensures t.up[n][k] == ROOT ==> k == |t.up[n]| - 1
  {
    WalkStep(t, n, k);
    WalkFresh(t, n, k);
    assert NodeOk(t, n);
    if t.up[n][k] == ROOT {
      RootOnlyLast(t, n, k);
    }
  }

  /** The release walk at position k < m: its node is named, is not the end, and its word is still untouched. */
  lemma DroppedSoFar(t: Tree, n: NodeId, start: map<NodeId, int>, k: nat, m: nat, end: Option<NodeId>)
    requires WellFormed(t) && n in t.up && k <= m < |t.up[n]| && t.up[n][k] in start
    requires end.Some? ==> end.value == t.up[n][m] && t.up[n][k] != end.value
    requires end.None? ==> t.up[n][m] == ROOT && t.up[n][k] != ROOT
    ensures k < m && t.up[n][k] in t.link && t.link[t.up[n][k]].parent == t.up[n][k + 1]
    ensures Drop(start, t.up[n][..k])[t.up[n][k]] == start[t.up[n][k]]
    ensures Drop(start, t.up[n][..k + 1]) == Drop(start, t.up[n][..k])[t.up[n][k] := DropOne(start[t.up[n][k]])]
  {
    WalkAt(t, n, k);
    DropStep(start, t.up[n], k);
  }

  lemma WalkStops(t: Tree, n: NodeId, k: nat, m: nat)
    requires WellFormed(t) && n in t.up && k <= m < |t.up[n]|
    requires t.up[n][k] == t.up[n][m] || t.up[n][k] == ROOT
    ensures k == m
  {
    WalkAt(t, n, k);
    if k < m {
      WalkDistinct(t, n, k, m);
    }
  }

  /** The asserts of unlock_path, over the whole walk to the root. */
  ghost predicate CanUnlock(t: Tree, word: map<NodeId, int>, hold: Hold)
  {
    && word.Keys == t.up.Keys && Connected(t, hold.node)
    && (hold.writes.Some? ==> hold.writes.value in word && word[hold.writes.value] == TREELOCK_WRITE
                              && hold.writes.value !in Body(t, hold.node))
    && forall n :: n in Body(t, hold.node) ==>
         n in word && word[n] != 0 && word[n] != TREELOCK_WAIT_OFFSET && word[n] != TREELOCK_WRITE
  }

  predicate Bounded(word: map<NodeId, int>)
  {
    forall n :: n in word ==> word[n] < INT_MAX - 1
  }

  lemma WordsBounded(s: Sys)
    requires SysOk(s) && |s.holds| + 2 < INT_MAX
    ensures Bounded(s.word)
  {
    forall n | n in s.word ensures s.word[n] < INT_MAX - 1 {
      assert NodeWordOk(s, n);
      SubsetCardinality(Readers(s, n), s.holds.Keys);
    }
  }

  /** When try_get_path2 gives its first path back, none of the asserts can fire. */
  lemma FirstCanUnlock(t: Tree, word: map<NodeId, int>, hold: Hold, word': map<NodeId, int>)
    requires word.Keys == t.up.Keys && Free(t, word, hold) && Bounded(word)
    requires MarksAdded(Locked(t, word, hold), word')
    ensures CanUnlock(t, word', hold)
  {
  }

  /** The two attempts of try_get_path2, and what is left to undo in between. */
  lemma TwoAttempts(t: Tree, word: map<NodeId, int>, leg1: Leg, leg2: Leg, memory: Memory)
    requires WellFormed(t) && word.Keys == t.up.Keys && LegOk(t, leg1) && LegOk(t, leg2) && Bounded(word)
    ensures var a := TryLeg(t, word, leg1, memory.first);
      var b := TryLeg(t, a.word, leg2, memory.second);
      var r := TryRequest(t, word, Two(leg1, leg2), memory);
      && a.word.Keys == t.up.Keys
      && if a.err != Ok then r.err == a.err && r.word == a.word
         else if b.err == Ok then r.err == Ok && r.word == b.word
         else r.err == b.err && r.word == Unlocked(t, b.word, HoldOf(t, leg1)) && CanUnlock(t, b.word, HoldOf(t, leg1))
  {
    LegAllOrNothing(t, word, leg1, memory.first);
    var a := TryLeg(t, word, leg1, memory.first);
    LegAllOrNothing(t, a.word, leg2, memory.second);
    if a.err == Ok && TryLeg(t, a.word, leg2, memory.second).err != Ok {
      FirstCanUnlock(t, word, HoldOf(t, leg1), TryLeg(t, a.word, leg2, memory.second).word);
    }
  }

  /** Nor when a granted path is given back. */
  lemma GrantedCanUnlock(s: Sys, h: HoldId)
    requires SysOk(s) && h in s.holds
    ensures CanUnlock(s.tree, s.word, s.holds[h])
  {
    ReleaseFindsItsMarks(s, h);
  }

  lemma WakeStep(f: Fuse, i: nat, mem: seq<Memory>)
    requires FuseOk(f) && i < |f.queue| && |f.sys.holds| + 2 * (|f.queue| - i) < INT_MAX
    ensures var g := WakeOne(f, i, MemoryAt(mem, i));
      && FuseOk(g) && |g.queue| == |f.queue| && |g.sys.holds| + 2 * (|g.queue| - (i + 1)) < INT_MAX
      && WakeFrom(f, i, mem) == WakeFrom(g, i + 1, mem)
  {
    WakeOneKeepsOk(f, i, MemoryAt(mem, i));
  }

  /** The acquire walk at position k. */
  lemma BumpedSoFar(t: Tree, n: NodeId, start: map<NodeId, int>, k: nat)
    requires WellFormed(t) && n in t.up && k < |Body(t, n)| && start.Keys == t.up.Keys
    ensures var c := t.up[n];
      && c[k] == Body(t, n)[k] && c[k] in t.link && t.link[c[k]].parent == c[k + 1] && c[k] in start
      && Bump(start, c[..k])[c[k]] == start[c[k]]
      && Bump(start, c[..k + 1]) == Bump(start, c[..k])[c[k] := start[c[k]] + 1]
  {
    WalkAt(t, n, k);
    BumpStep(start, t.up[n], k);
  }

  lemma TextStep(link: map<NodeId, Link>, nodes: seq<NodeId>, k: nat, s: string)
    requires (forall n :: n in nodes ==> n in link) && k < |nodes|
    ensures Text(link, nodes[k..], s) == Text(link, nodes[k + 1..], "/" + link[nodes[k]].name + s)
  {
    assert nodes[k..][0] == nodes[k] && nodes[k..][1..] == nodes[k + 1..];
  }

  lemma WalkBegins(t: Tree, n: NodeId)
    requires WellFormed(t) && n in t.up
    ensures |t.up[n]| == |Body(t, n)| + 1 && t.up[n][0] == n
    ensures forall m :: m in Body(t, n) ==> m in t.link
    ensures forall k :: 0 <= k <= |Body(t, n)| ==> t.up[n][..k] == Body(t, n)[..k]
  {
    assert NodeOk(t, n);
    BodyNamed(t, n);
  }

  /** Nobody writes, or waits to write, one of the first k nodes. */
  predicate Unbusy(word: map<NodeId, int>, body: seq<NodeId>, k: nat)
  {
    k <= |body| && forall i :: 0 <= i < k ==> body[i] in word && word[body[i]] >= 0
  }

  /**
    Taking back the first k nodes of an unfinished walk restores the words, and meets no word that
    the asserts reject.
   */
  lemma UnlockBefore(t: Tree, leg: Leg, w: Option<NodeId>, k: nat, before: map<NodeId, int>)
    requires WellFormed(t) && LegOk(t, leg) && w == Target(t, leg) && before.Keys == t.up.Keys
    requires w.Some? ==> w.value in before && before[w.value] == 0
    requires Unbusy(Put(before, w, TREELOCK_WRITE), Body(t, leg.node), k)
    ensures var c := t.up[leg.node];
      var word := Bump(Put(before, w, TREELOCK_WRITE), c[..k]);
      && (w.Some? ==> w.value in word && word[w.value] == TREELOCK_WRITE && w.value !in c[..k])
      && (forall i :: 0 <= i < k ==> c[i] in word && word[c[i]] > 0)
      && Drop(Put(word, w, 0), c[..k]) == before
  {
    TargetFacts(t, leg);
    WalkBegins(t, leg.node);
    var c := t.up[leg.node];
    forall n | n in c[..k] ensures n in before && before[n] >= 0 {
      var i :| 0 <= i < k && c[i] == n;
      assert c[i] == Body(t, leg.node)[i];
    }
    UndoBump(before, w, c[..k]);
  }

  /** A busy node at position k, with nothing busy before it, is the first busy one. */
  lemma FirstBusyAt(word: map<NodeId, int>, body: seq<NodeId>, k: nat)
    requires Unbusy(word, body, k)
    ensures FirstBusy(word, body) >= k
    ensures k < |body| && body[k] in word && word[body[k]] < 0 ==> FirstBusy(word, body) == k
  {
  }

  /** The words, after the acquire walk has passed k nodes and stands on node. */
  ghost predicate Locking(t: Tree, leg: Leg, start: map<NodeId, int>, word: map<NodeId, int>, k: int, node: NodeId)
    requires LegOk(t, leg)
  {
    var body := Body(t, leg.node);
    && 0 <= k <= |body| < |t.up[leg.node]| && node == t.up[leg.node][k]
    && start.Keys == t.up.Keys && word == Bump(start, t.up[leg.node][..k]) && Unbusy(start, body, k)
  }

  /** The acquire walk, with the path text s so far and `left` allocations to go. */
  ghost predicate Climb(t: Tree, leg: Leg, start: map<NodeId, int>, word: map<NodeId, int>,
                        k: int, node: NodeId, left: int, memory: nat, s: string)
    requires LegOk(t, leg)
  {
    && Locking(t, leg, start, word, k, node)
    && 0 <= left && left + k == memory
    && (forall m :: m in Body(t, leg.node) ==> m in t.link)
    && Text(t.link, Body(t, leg.node), TailOf(leg)) == Text(t.link, Body(t, leg.node)[k..], s)
  }

  lemma ClimbBegins(t: Tree, leg: Leg, start: map<NodeId, int>, memory: nat)
    requires WellFormed(t) && LegOk(t, leg) && start.Keys == t.up.Keys
    ensures Climb(t, leg, start, start, 0, leg.node, memory, memory, TailOf(leg))
  {
    WalkBegins(t, leg.node);
    assert Body(t, leg.node)[0..] == Body(t, leg.node);
  }

  lemma ClimbStep(t: Tree, leg: Leg, start: map<NodeId, int>, word: map<NodeId, int>,
                  k: int, node: NodeId, left: int, memory: nat, s: string)
    requires WellFormed(t) && LegOk(t, leg) && Climb(t, leg, start, word, k, node, left, memory, s)
    requires node != ROOT
    ensures node in t.link ==> k < |Body(t, leg.node)| && node in word && word[node] == start[node]
    ensures node in t.link && left > 0 && word[node] >= 0 ==>
      Climb(t, leg, start, word[node := word[node] + 1], k + 1, t.link[node].parent, left - 1, memory,
            "/" + t.link[node].name + s)
  {
    WalkAt(t, leg.node, k);
    if node in t.link {
      BumpedSoFar(t, leg.node, start, k);
      TextStep(t.link, Body(t, leg.node), k, s);
    }
  }

  /** Where the walk may stop, and what try_get_path answers there. */
  lemma ClimbStops(t: Tree, leg: Leg, start: map<NodeId, int>, word: map<NodeId, int>,
                   k: int, node: NodeId, left: int, memory: nat, s: string)
    requires WellFormed(t) && LegOk(t, leg) && Climb(t, leg, start, word, k, node, left, memory, s)
    ensures var err := WalkErr(t, start, leg.node, memory);
      if node == ROOT then
        err == Ok && word == Bump(start, Body(t, leg.node)) && PathOf(t, leg) == if s == "" then "/" else s
      else if node !in t.link then err == Stale
      else if left == 0 then err == NoMemory
      else node in word && (word[node] < 0 ==> err == Again)
  {
    WalkAt(t, leg.node, k);
    FirstBusyAt(start, Body(t, leg.node), k);
    if node != ROOT && node in t.link {
      BumpedSoFar(t, leg.node, start, k);
    }
  }

  lemma UndoBump(word: map<NodeId, int>, w: Option<NodeId>, body: seq<NodeId>)
    requires w.Some? ==> w.value in word && word[w.value] == 0 && w.value !in body
    requires forall n :: n in body ==> n in word && word[n] >= 0
    ensures Drop(Put(Bump(Put(word, w, TREELOCK_WRITE), body), w, 0), body) == word
  {
  }

  class PathMachine {
    var link: map<NodeId, Link>
    var index: map<Link, NodeId>
    var treelock: map<NodeId, int>
    var lockq: seq<Waiter>
    ghost var up: map<NodeId, seq<NodeId>>
    ghost var holds: map<HoldId, Hold>
    ghost var next: HoldId
    ghost var movers: set<HoldId>

    ghost function TreeNow(): Tree
      reads this`link, this`index, this`up
    {
      Tree(link, index, up)
    }

    ghost function State(): Fuse
      reads this
    {
      Fuse(Sys(TreeNow(), treelock, holds), lockq, next, movers)
    }

    constructor ()
      ensures State() == INITIAL && Inv(State())
    {
      link, index, treelock, lockq := map[], map[], map[ROOT := 0], [];
      up, holds, next, movers := map[ROOT := [ROOT]], map[], 0, {};
      new;
    }

    /** One reader less on a node; the last one takes a waiting mark with it. */
    method DropWord(n: NodeId)
      requires n in treelock
      modifies this`treelock
      ensures treelock == old(treelock)[n := DropOne(old(treelock)[n])]
    {
      treelock := treelock[n := treelock[n] - 1];
      if treelock[n] == TREELOCK_WAIT_OFFSET {
        treelock := treelock[n := 0];
      }
    }

    /**
      unlock_path: walks from nodeid until it stands on end, or on the root.
      m is the number of nodes passed; the requires clauses are the asserts
      of the code, read along the walk.
     */
    method UnlockPath(nodeid: NodeId, wnode: Option<NodeId>, end: Option<NodeId>, ghost m: nat)
      requires WellFormed(TreeNow()) && treelock.Keys == up.Keys && nodeid in up && m < |up[nodeid]|
      requires end.Some? ==> end.value == up[nodeid][m]
      requires end.None? ==> up[nodeid][m] == ROOT
      requires wnode.Some? ==>
        wnode.value in treelock && treelock[wnode.value] == TREELOCK_WRITE && wnode.value !in up[nodeid][..m]
      requires forall i :: 0 <= i < m ==>
        var n := up[nodeid][i];
        n in treelock && treelock[n] != 0 && treelock[n] != TREELOCK_WAIT_OFFSET && treelock[n] != TREELOCK_WRITE
      modifies this`treelock
      ensures treelock == Drop(Put(old(treelock), wnode, 0), up[nodeid][..m])
    {
      ghost var t := TreeNow();
      ghost var c := t.up[nodeid];
      if wnode.Some? {
        assert treelock[wnode.value] == TREELOCK_WRITE;
        treelock := treelock[wnode.value := 0];
      }
      ghost var start := treelock;
      ghost var k := 0;
      var node := nodeid;
      WalkAt(t, nodeid, m);
      WalkAt(t, nodeid, 0);
      while !(end.Some? && node == end.value) && node != ROOT
        invariant k <= m && node == c[k] && link == t.link
        invariant treelock == Drop(start, c[..k])
        decreases m - k
      {
        DroppedSoFar(t, nodeid, start, k, m, end);
        assert treelock[node] != 0;
        assert treelock[node] != TREELOCK_WAIT_OFFSET;
        assert treelock[node] != TREELOCK_WRITE;
        DropWord(node);
        node := link[node].parent;
        k := k + 1;
      }
      WalkStops(t, nodeid, k, m);
    }

    /** try_get_path; memory is the number of allocations that succeed. */
    method TryGetPath(leg: Leg, memory: nat) returns (err: Err, wnode: Option<NodeId>, path: string)
      requires WellFormed(TreeNow()) && treelock.Keys == up.Keys && LegOk(TreeNow(), leg)
      modifies this`treelock
      ensures var a := TryLeg(TreeNow(), old(treelock), leg, memory); err == a.err && treelock == a.word
      ensures err == Ok ==> wnode == Target(TreeNow(), leg)
      ensures err == Ok && leg.write && Link(leg.node, leg.name.value) in index ==>
                var w := index[Link(leg.node, leg.name.value)];
                && wnode == Some(w) && w in old(treelock) && old(treelock)[w] == 0
                && w in treelock && treelock[w] == TREELOCK_WRITE
      ensures err == Ok ==> (forall m :: m in Body(TreeNow(), leg.node) ==> m in link) && path == PathOf(TreeNow(), leg)
    {
      wnode, path := None, "";
      NamedIsLocked(TreeNow(), treelock, leg, memory);
      if memory < 1 + Names(leg) {
        return NoMemory, None, "";
      }
      TargetFacts(TreeNow(), leg);
      if leg.write && Link(leg.node, leg.name.value) in index {
        var w := index[Link(leg.node, leg.name.value)];
        wnode := Some(w);
        if treelock[w] != 0 {
          if treelock[w] > 0 {
            treelock := treelock[w := treelock[w] + TREELOCK_WAIT_OFFSET];
          }
          return Again, None, "";
        }
        treelock := treelock[w := TREELOCK_WRITE];
      }
      err, path := WalkUp(leg, wnode, memory - 1 - Names(leg), old(treelock));
    }

    /** The rest of try_get_path, once the target is locked: read-locks every node up to the root, or gives all back. */
    method WalkUp(leg: Leg, wnode: Option<NodeId>, memory: nat, ghost before: map<NodeId, int>)
      returns (err: Err, path: string)
      requires WellFormed(TreeNow()) && before.Keys == up.Keys && LegOk(TreeNow(), leg)
      requires wnode == Target(TreeNow(), leg)
      requires wnode.Some? ==> wnode.value in before && before[wnode.value] == 0
      requires treelock == Put(before, wnode, TREELOCK_WRITE)
      modifies this`treelock
      ensures err == WalkErr(TreeNow(), old(treelock), leg.node, memory)
      ensures treelock == if err == Ok then Bump(old(treelock), Body(TreeNow(), leg.node)) else before
      ensures err == Ok ==> (forall m :: m in Body(TreeNow(), leg.node) ==> m in link) && path == PathOf(TreeNow(), leg)
    {
      var node, s;
      ghost var k, left;
      err, node, s, k, left := Ascend(leg, memory);
      ClimbStops(TreeNow(), leg, old(treelock), treelock, k, node, left, memory, s);
      if err != Ok {
        UnlockWalk(leg, wnode, node, k, before);
        return err, "";
      }
      return Ok, if s == "" then "/" else s;
    }

    method Ascend(leg: Leg, memory: nat) returns (err: Err, node: NodeId, s: string, ghost k: nat, ghost left: nat)
      requires WellFormed(TreeNow()) && treelock.Keys == up.Keys && LegOk(TreeNow(), leg)
      modifies this`treelock
      ensures Climb(TreeNow(), leg, old(treelock), treelock, k, node, left, memory, s) == true
      ensures err == if node == ROOT then Ok else if node !in link then Stale else if left == 0 then NoMemory else Again
      ensures err == Again ==> node in treelock && treelock[node] < 0
    {
      ghost var t, start := TreeNow(), treelock;
      var allocations := memory;
      s, node, k, left := TailOf(leg), leg.node, 0, memory;
      ClimbBegins(t, leg, start, memory);
      while node != ROOT
        invariant TreeNow() == t && left == allocations >= 0
        invariant Climb(t, leg, start, treelock, k, node, left, memory, s) == true
        decreases |Body(t, leg.node)| - k
      {
        ClimbStep(t, leg, start, treelock, k, node, left, memory, s);
        if node !in link {
          return Stale, node, s, k, left;
        }
        if allocations == 0 {
          return NoMemory, node, s, k, left;
        }
        if treelock[node] < 0 {
          return Again, node, s, k, left;
        }
        allocations := allocations - 1;
        s := "/" + link[node].name + s;
        treelock := treelock[node := treelock[node] + 1];
        node := link[node].parent;
        k, left := k + 1, left - 1;
      }
      return Ok, node, s, k, left;
    }

    /** The out_unlock exit of try_get_path: everything locked so far is given back. */
    method UnlockWalk(leg: Leg, wnode: Option<NodeId>, end: NodeId, ghost k: nat, ghost before: map<NodeId, int>)
      requires WellFormed(TreeNow()) && before.Keys == up.Keys && LegOk(TreeNow(), leg)
      requires wnode == Target(TreeNow(), leg) && (wnode.Some? ==> wnode.value in before && before[wnode.value] == 0)
      requires Locking(TreeNow(), leg, Put(before, wnode, TREELOCK_WRITE), treelock, k, end)
      modifies this`treelock
      ensures treelock == before
    {
      UnlockBefore(TreeNow(), leg, wnode, k, before);
      UnlockPath(leg.node, wnode, Some(end), k);
    }

    /** unlock_path up to the root */
    method UnlockWhole(nodeid: NodeId, wnode: Option<NodeId>)
      requires WellFormed(TreeNow()) && CanUnlock(TreeNow(), treelock, Hold(nodeid, wnode))
      modifies this`treelock
      ensures treelock == Unlocked(TreeNow(), old(treelock), Hold(nodeid, wnode))
    {
      ghost var m := |up[nodeid]| - 1;
      assert up[nodeid][..m] == Body(TreeNow(), nodeid);
      assert forall i :: 0 <= i < m ==> up[nodeid][i] == Body(TreeNow(), nodeid)[i];
      UnlockPath(nodeid, wnode, None, m);
    }

    /** try_get_path2 */
    method TryGetPath2(leg1: Leg, leg2: Leg, memory: Memory)
      returns (err: Err, wnode1: Option<NodeId>, path1: string, wnode2: Option<NodeId>, path2: string)
      requires WellFormed(TreeNow()) && treelock.Keys == up.Keys && LegOk(TreeNow(), leg1) && LegOk(TreeNow(), leg2)
      requires Bounded(treelock)
      modifies this`treelock
      ensures var a := TryRequest(TreeNow(), old(treelock), Two(leg1, leg2), memory); err == a.err && treelock == a.word
      ensures err == Ok ==> wnode1 == Target(TreeNow(), leg1) && wnode2 == Target(TreeNow(), leg2)
      ensures err == Ok ==> (forall m :: m in Body(TreeNow(), leg1.node) + Body(TreeNow(), leg2.node) ==> m in link)
                            && path1 == PathOf(TreeNow(), leg1) && path2 == PathOf(TreeNow(), leg2)
    {
      wnode2, path2 := None, "";
      TwoAttempts(TreeNow(), treelock, leg1, leg2, memory);
      err, wnode1, path1 := TryGetPath(leg1, memory.first);
      if err == Ok {
        err, wnode2, path2 := TryGetPath(leg2, memory.second);
        if err != Ok {
          UnlockWhole(leg1.node, wnode1);
        }
      }
    }

    /** One attempt for a request of either kind; a granted request takes the next hold numbers. */
    method Try(req: Request, memory: Memory) returns (err: Err, got: seq<Hold>)
      requires SysOk(State().sys) && RequestOk(TreeNow(), req) && |holds| + 2 < INT_MAX
      modifies this`treelock, this`holds, this`next
      ensures var a := TryRequest(TreeNow(), old(treelock), req, memory);
        && err == a.err && got == a.holds
        && State().sys == Take(old(State().sys), old(next), a)
        && next == old(next) + |a.holds|
    {
      RequestAllOrNothing(TreeNow(), treelock, req, memory);
      match req {
        case One(leg) =>
          var wnode, path;
          err, wnode, path := TryGetPath(leg, memory.first);
          got := if err == Ok then [Hold(leg.node, wnode)] else [];
        case Two(leg1, leg2) =>
          WordsBounded(State().sys);
          var wnode1, path1, wnode2, path2;
          err, wnode1, path1, wnode2, path2 := TryGetPath2(leg1, leg2, memory);
          got := if err == Ok then [Hold(leg1.node, wnode1), Hold(leg2.node, wnode2)] else [];
      }
      ghost var a := TryRequest(TreeNow(), old(treelock), req, memory);
      holds := Take(old(State().sys), next, a).holds;
      next := next + |a.holds|;
    }

    /** get_path_common and get_path2, up to the point where the caller has its paths or sleeps in the queue. */
    method GetPath(req: Request, memory: Memory) returns (err: Err, got: seq<Hold>)
      requires Inv(State()) && RequestOk(TreeNow(), req) && |holds| + 2 < INT_MAX
      modifies this
      ensures Inv(State()) && State() == Acquire(old(State()), req, memory)
      ensures got == TryRequest(TreeNow(), old(treelock), req, memory).holds
      ensures err == TryRequest(TreeNow(), old(treelock), req, memory).err
    {
      AcquireKeepsInv(State(), req, memory);
      ghost var goal := Acquire(State(), req, memory);
      err, got := Try(req, memory);
      if err == Again {
        lockq := lockq + [PathWaiter(req, false, Again, [])];
      }
      assert State() == goal;
    }

    /** queue_element_wakeup for the element at position i */
    method WakeElement(i: nat, memory: Memory)
      requires FuseOk(State()) && i < |lockq| && |holds| + 2 < INT_MAX
      modifies this
      ensures State() == WakeOne(old(State()), i, memory)
    {
      match lockq[i] {
        case ForgetWaiter(node, _) =>
          if treelock[node] == 0 {
            lockq := lockq[i := ForgetWaiter(node, true)];
          }
        case PathWaiter(req, done, _, _) =>
          if !done {
            var err, got := Try(req, memory);
            if err != Again {
              lockq := lockq[i := PathWaiter(req, true, err, got)];
            }
          }
      }
    }

    /** wake_up_queued */
    method WakeUpQueued(mem: seq<Memory>)
      requires FuseOk(State()) && |holds| + 2 * |lockq| < INT_MAX
      modifies this
      ensures FuseOk(State()) && Settled(State())
      ensures State() == WakeFrom(old(State()), 0, mem)
    {
      WakeSettles(State(), 0, mem);
      ghost var woken := WakeFrom(State(), 0, mem);
      var i := 0;
      while i < |lockq|
        invariant 0 <= i <= |lockq| && FuseOk(State()) && |holds| + 2 * (|lockq| - i) < INT_MAX
        invariant WakeFrom(State(), i, mem) == woken
        decreases |lockq| - i
      {
        WakeStep(State(), i, mem);
        WakeElement(i, MemoryAt(mem, i));
        i := i + 1;
      }
    }

    /** unlock_path for the granted path h */
    method Unlock(nodeid: NodeId, wnode: Option<NodeId>, ghost h: HoldId)
      requires SysOk(State().sys) && h in holds && holds[h] == Hold(nodeid, wnode)
      modifies this`treelock, this`holds
      ensures nodeid in up && SysOk(State().sys) && State().sys == WithoutHold(old(State().sys), h)
    {
      GrantedCanUnlock(State().sys, h);
      ReleaseKeepsOk(State().sys, h);
      UnlockWhole(nodeid, wnode);
      holds := holds - {h};
    }

    /** free_path_wrlock, for the granted path h */
    method FreePathWrlock(nodeid: NodeId, wnode: Option<NodeId>, mem: seq<Memory>, ghost h: HoldId)
      requires Inv(State()) && Enabled(State(), FreePath(h, mem)) && holds[h] == Hold(nodeid, wnode)
      modifies this
      ensures Inv(State()) && State() == Next(old(State()), FreePath(h, mem)) && Settled(State())
    {
      ReleaseSettles(State(), FreePath(h, mem));
      ReleasedOk(State(), FreePath(h, mem));
      Unlock(nodeid, wnode, h);
      movers := {};
      assert State() == Released(old(State()), FreePath(h, mem));
      WakeUpQueued(mem);
    }

    /** free_path2, for the granted paths h1 and h2 */
    method FreeBothPaths(nodeid1: NodeId, nodeid2: NodeId, wnode1: Option<NodeId>, wnode2: Option<NodeId>,
                         mem: seq<Memory>, ghost h1: HoldId, ghost h2: HoldId)
      requires Inv(State()) && Enabled(State(), FreePath2(h1, h2, mem))
      requires holds[h1] == Hold(nodeid1, wnode1) && holds[h2] == Hold(nodeid2, wnode2)
      modifies this
      ensures Inv(State()) && State() == Next(old(State()), FreePath2(h1, h2, mem)) && Settled(State())
    {
      ReleaseSettles(State(), FreePath2(h1, h2, mem));
      ReleasedOk(State(), FreePath2(h1, h2, mem));
      Unlock(nodeid1, wnode1, h1);
      Unlock(nodeid2, wnode2, h2);
      movers := {};
      assert State() == Released(old(State()), FreePath2(h1, h2, mem));
      WakeUpQueued(mem);
    }

    /** unhash_name, as far as names are concerned */
    method UnhashName(w: NodeId)
      modifies this`link, this`index, this`up
      ensures TreeNow() == Detach(old(TreeNow()), w)
    {
      if w in link {
        up := CutAll(up, w);
        index := index - {link[w]};
        link := link - {w};
      }
    }

    /** hash_name, as far as names are concerned; keeps is false when the name cannot be copied */
    method HashName(w: NodeId, at: Link, keeps: bool) returns (ok: bool)
      requires at.parent in up
      modifies this`link, this`index, this`up
      ensures ok == keeps
      ensures TreeNow() == if keeps then Attach(old(TreeNow()), w, at.parent, at.name) else old(TreeNow())
    {
      if !keeps {
        return false;
      }
      up := map n | n in up :: Graft(up[n], w, up[at.parent]);
      link := link[w := at];
      index := index[at := w];
      return true;
    }

    /** The operation of the path h is through; it counts as a mover if it changed the names it found, before. */
    ghost method NoteMove(h: HoldId, before: Tree)
      modifies this`movers
      ensures movers == if TreeNow() == before then old(movers) else old(movers) + {h}
    {
      movers := if TreeNow() == before then movers else movers + {h};
    }

    /** remove_node: at is the name that the granted path h writes, or is unknown */
    method RemoveNode(at: Link, ghost h: HoldId)
      requires Inv(State()) && Enabled(State(), Step.RemoveNode(h, at))
      modifies this
      ensures Inv(State()) && State() == Next(old(State()), Step.RemoveNode(h, at))
    {
      ghost var f := State();
      NextKeepsInv(f, Step.RemoveNode(h, at));
      if at in index {
        UnhashName(index[at]);
      }
      NoteMove(h, f.sys.tree);
      assert State() == Moved(f, RemoveTree(f.sys.tree, at), h);
    }

    /** rename_node */
    method RenameNode(oldAt: Link, newAt: Link, hiding: bool, keeps: bool, ghost h: HoldId, ghost under: HoldId)
      requires Inv(State()) && Enabled(State(), Step.RenameNode(h, under, oldAt, newAt, hiding, keeps))
      modifies this
      ensures Inv(State())
        && State() == Next(old(State()), Step.RenameNode(h, under, oldAt, newAt, hiding, keeps))
    {
      ghost var f := State();
      NextKeepsInv(f, Step.RenameNode(h, under, oldAt, newAt, hiding, keeps));
      RenameSame(f.sys, h, under, oldAt, newAt, hiding, keeps);
      RenameNames(oldAt, newAt, hiding, keeps);
      NoteMove(h, f.sys.tree);
      assert State() == Moved(f, RenameTree(f.sys.tree, oldAt, newAt, hiding, keeps), h);
    }

    method RenameNames(oldAt: Link, newAt: Link, hiding: bool, keeps: bool)
      requires newAt.parent in up
      modifies this`link, this`index, this`up
      ensures TreeNow() == RenameTree(old(TreeNow()), oldAt, newAt, hiding, keeps)
    {
      var node := if oldAt in index then Some(index[oldAt]) else None;
      var newNode := if newAt in index then Some(index[newAt]) else None;
      if node.None? {
        return;
      }
      if newNode.Some? {
        if hiding {
          return;
        }
        UnhashName(newNode.value);
      }
      UnhashName(node.value);
      var ok := HashName(node.value, newAt, keeps);
    }

    /** exchange_node */
    method ExchangeNode(oldAt: Link, newAt: Link, keeps1: bool, keeps2: bool, ghost h: HoldId, ghost under: HoldId)
      requires Inv(State()) && Enabled(State(), Step.ExchangeNode(h, under, oldAt, newAt, keeps1, keeps2))
      modifies this
      ensures Inv(State())
        && State() == Next(old(State()), Step.ExchangeNode(h, under, oldAt, newAt, keeps1, keeps2))
    {
      ghost var f := State();
      NextKeepsInv(f, Step.ExchangeNode(h, under, oldAt, newAt, keeps1, keeps2));
      ExchangeSame(f.sys, h, under, oldAt, newAt, keeps1, keeps2);
      ExchangeNames(oldAt, newAt, keeps1, keeps2);
      NoteMove(h, f.sys.tree);
      assert State() == Moved(f, ExchangeTree(f.sys.tree, oldAt, newAt, keeps1, keeps2), h);
    }

    method ExchangeNames(oldAt: Link, newAt: Link, keeps1: bool, keeps2: bool)
      requires oldAt.parent in up && newAt.parent in up
      modifies this`link, this`index, this`up
      ensures TreeNow() == ExchangeTree(old(TreeNow()), oldAt, newAt, keeps1, keeps2)
    {
      var oldNode := if oldAt in index then Some(index[oldAt]) else None;
      var newNode := if newAt in index then Some(index[newAt]) else None;
      if oldNode.Some? {
        UnhashName(oldNode.value);
      }
      if newNode.Some? {
        UnhashName(newNode.value);
      }
      if oldNode.Some? {
        var ok := HashName(oldNode.value, newAt, keeps1);
        if !ok {
          return;
        }
      }
      if newNode.Some? {
        var ok := HashName(newNode.value, oldAt, keeps2);
      }
    }

    // ----- nodes that come and go -----

    /** find_node, for a name that is not known yet, as far as names and locks are concerned */
    method FindNode(n: NodeId, at: Link)
      requires Inv(State()) && Enabled(State(), Step.FindNode(n, at))
      modifies this
      ensures Inv(State()) && State() == Next(old(State()), Step.FindNode(n, at))
    {
      NextKeepsInv(State(), Step.FindNode(n, at));
      treelock := treelock[n := 0];
      EnterName(n, at);
    }

    method EnterName(n: NodeId, at: Link)
      requires at.parent in up
      modifies this`link, this`index, this`up
      ensures TreeNow() == CreateTree(old(TreeNow()), n, at)
    {
      up := up[n := [n]];
      var ok := HashName(n, at, true);
    }

    /** What one cascade of delete_node takes away: none of it is locked. */
    method DeleteNodes(gone: set<NodeId>)
      requires Inv(State()) && Enabled(State(), Step.Delete(gone))
      modifies this
      ensures Inv(State()) && State() == Next(old(State()), Step.Delete(gone))
    {
      NextKeepsInv(State(), Step.Delete(gone));
      assert forall n :: n in gone ==> treelock[n] == 0;
      treelock := treelock - gone;
      DropNames(gone);
    }

    method DropNames(gone: set<NodeId>)
      modifies this`link, this`index, this`up
      ensures TreeNow() == DeleteTree(old(TreeNow()), gone)
    {
      link := link - gone;
      index := map k | k in index && index[k] !in gone :: index[k];
      up := up - gone;
    }

    // ----- threads that sleep -----

    /** dequeue_path, for the queue element at position i */
    method Leave(i: nat)
      requires Inv(State()) && Enabled(State(), Step.Leave(i))
      modifies this`lockq
      ensures Inv(State()) && State() == Next(old(State()), Step.Leave(i))
    {
      NextKeepsInv(State(), Step.Leave(i));
      lockq := lockq[..i] + lockq[i + 1..];
    }

    /** The loop of forget_node: queue up while the node is locked ... */
    method AwaitForget(node: NodeId) returns (waits: bool)
      requires Inv(State()) && node in treelock
      modifies this`lockq
      ensures waits == (treelock[node] != 0) && Inv(State())
      ensures if waits then old(Enabled(State(), Step.AwaitForget(node)))
                            && State() == Next(old(State()), Step.AwaitForget(node))
              else State() == old(State())
    {
      if treelock[node] == 0 {
        return false;
      }
      NextKeepsInv(State(), Step.AwaitForget(node));
      lockq := lockq + [ForgetWaiter(node, false)];
      return true;
    }

    /** ... and sleep on if it is still locked after a wakeup. */
    method SleepAgain(i: nat) returns (waits: bool)
      requires Inv(State()) && i < |lockq| && lockq[i].ForgetWaiter?
      modifies this`lockq
      ensures i < |old(lockq)| && old(lockq)[i].ForgetWaiter? && old(lockq)[i].node in treelock && Inv(State())
      ensures waits == (treelock[old(lockq)[i].node] != 0)
      ensures if waits then old(Enabled(State(), Step.SleepAgain(i)))
                            && State() == Next(old(State()), Step.SleepAgain(i))
              else State() == old(State())
    {
      assert WaiterOk(TreeNow(), lockq[i]);
      var node := lockq[i].node;
      if treelock[node] == 0 {
        return false;
      }
      NextKeepsInv(State(), Step.SleepAgain(i));
      lockq := lockq[i := ForgetWaiter(node, false)];
      return true;
    }
  }
}
