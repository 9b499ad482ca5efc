/**
  Every step of the path-lock protocol, and what holds over whole runs: the
  lock words stay exact under renames and removals, no wakeup is lost, and a
  node with a waiting writer only drains.
 */
module PathRuns {
  import opened Wrappers
  import opened PathTree
  import opened PathLocks
  import opened PathRequests
  import opened PathQueue

  // ----- names that move under locked paths -----

  /** The walks of the locked paths are the same in t' as in s. */
  ghost predicate SameWalks(s: Sys, t': Tree)
  {
    && WellFormed(t') && t'.up.Keys == s.tree.up.Keys
    && forall h :: h in s.holds ==> s.holds[h].node in t'.up && t'.up[s.holds[h].node] == s.tree.up[s.holds[h].node]
  }

  /** w is written by a granted request, so no locked walk meets it. */
  ghost predicate Unread(s: Sys, w: NodeId)
  {
    forall h :: h in s.holds ==> s.holds[h].node in s.tree.up && w !in s.tree.up[s.holds[h].node]
  }

  lemma WrittenUnread(s: Sys, writer: HoldId, w: NodeId)
    requires SysOk(s) && Writes(s, writer, w)
    ensures Unread(s, w) && w in s.tree.up && w != ROOT
  {
    assert HoldOk(s, writer);
    forall h | h in s.holds ensures s.holds[h].node in s.tree.up && w !in s.tree.up[s.holds[h].node] {
      WrittenIsUnread(s, writer, w, h);
    }
  }

  lemma DetachSame(s: Sys, t: Tree, w: NodeId)
    requires SameWalks(s, t) && Unread(s, w)
    ensures SameWalks(s, Detach(t, w))
    ensures w !in Detach(t, w).link
    ensures w in t.link ==> t.link[w] in t.index && Detach(t, w).index == t.index - {t.link[w]}
  {
    DetachWellFormed(t, w);
    assert w in t.up ==> NodeOk(t, w);
  }

  lemma AttachSame(s: Sys, t: Tree, w: NodeId, newAt: Link, under: HoldId)
    requires SameWalks(s, t) && Unread(s, w)
    requires w in t.up && w !in t.link && w != ROOT && newAt !in t.index
    requires under in s.holds && s.holds[under].node == newAt.parent
    ensures newAt.parent in t.up && SameWalks(s, Attach(t, w, newAt.parent, newAt.name))
  {
    AttachWellFormed(t, w, newAt.parent, newAt.name);
  }

  /** h is the path of the directory of at, and writes the node of that name. */
  predicate WritesAt(s: Sys, h: HoldId, at: Link)
  {
    h in s.holds && s.holds[h].node == at.parent && (at in s.tree.index ==> Writes(s, h, s.tree.index[at]))
  }

  /**
    The premise of rename_node: the nodes it finds are the ones its two paths
    write. Hiding a file goes on under the one path of the file, and takes no
    name that is there.
   */
  predicate RenameEnabled(s: Sys, h1: HoldId, h2: HoldId, oldAt: Link, newAt: Link, hiding: bool)
  {
    && WritesAt(s, h1, oldAt)
    && if hiding then h2 == h1 && newAt.parent == oldAt.parent else WritesAt(s, h2, newAt)
  }

  lemma RenameSame(s: Sys, h1: HoldId, h2: HoldId, oldAt: Link, newAt: Link, hiding: bool, keepsName: bool)
    requires SysOk(s) && RenameEnabled(s, h1, h2, oldAt, newAt, hiding)
    ensures newAt.parent in s.tree.up && SameWalks(s, RenameTree(s.tree, oldAt, newAt, hiding, keepsName))
  {
    var t := s.tree;
    assert HoldOk(s, h2);
    forall h | h in s.holds ensures s.holds[h].node in t.up {
      assert HoldOk(s, h);
    }
    assert SameWalks(s, t);
    if oldAt in t.index && !(newAt in t.index && hiding) {
      var node := t.index[oldAt];
      assert EntryOk(t, oldAt);
      WrittenUnread(s, h1, node);
      var t1 := if newAt in t.index then Detach(t, t.index[newAt]) else t;
      if newAt in t.index {
        assert EntryOk(t, newAt);
        WrittenUnread(s, h2, t.index[newAt]);
        DetachSame(s, t, t.index[newAt]);
      }
      DetachSame(s, t1, node);
      if keepsName {
        AttachSame(s, Detach(t1, node), node, newAt, h2);
      }
    }
  }

  predicate ExchangeEnabled(s: Sys, h1: HoldId, h2: HoldId, oldAt: Link, newAt: Link)
  {
    WritesAt(s, h1, oldAt) && WritesAt(s, h2, newAt) && h1 != h2
  }

  /** Two different requests never write the same node. */
  lemma OneWriter(s: Sys, h1: HoldId, h2: HoldId, w: NodeId)
    requires SysOk(s) && Writes(s, h1, w) && Writes(s, h2, w)
    ensures h1 == h2
  {
    assert HoldOk(s, h1) && NodeWordOk(s, w);
    if h1 != h2 {
      assert {h1, h2} <= Writers(s, w);
      SubsetCardinality({h1, h2}, Writers(s, w));
    }
  }

  lemma ExchangeSame(s: Sys, h1: HoldId, h2: HoldId, oldAt: Link, newAt: Link, keeps1: bool, keeps2: bool)
    requires SysOk(s) && ExchangeEnabled(s, h1, h2, oldAt, newAt)
    ensures oldAt.parent in s.tree.up && newAt.parent in s.tree.up
    ensures SameWalks(s, ExchangeTree(s.tree, oldAt, newAt, keeps1, keeps2))
  {
    var t := s.tree;
    assert HoldOk(s, h1) && HoldOk(s, h2);
    forall h | h in s.holds ensures s.holds[h].node in t.up {
      assert HoldOk(s, h);
    }
    assert SameWalks(s, t);
    var t1 := if oldAt in t.index then Detach(t, t.index[oldAt]) else t;
    var t2 := if newAt in t.index then Detach(t1, t.index[newAt]) else t1;
    if oldAt in t.index {
      assert EntryOk(t, oldAt);
      WrittenUnread(s, h1, t.index[oldAt]);
      DetachSame(s, t, t.index[oldAt]);
    }
    if newAt in t.index {
      assert EntryOk(t, newAt);
      WrittenUnread(s, h2, t.index[newAt]);
      if oldAt in t.index && t.index[oldAt] == t.index[newAt] {
        OneWriter(s, h1, h2, t.index[newAt]);
      }
      DetachSame(s, t1, t.index[newAt]);
    }
    if oldAt in t.index && keeps1 {
      AttachSame(s, t2, t.index[oldAt], newAt, h2);
    }
    if !(oldAt in t.index && !keeps1) && newAt in t.index && keeps2 {
      var t3 := if oldAt in t.index then Attach(t2, t.index[oldAt], newAt.parent, newAt.name) else t2;
      AttachSame(s, t3, t.index[newAt], oldAt, h1);
    }
  }

  lemma RemoveSame(s: Sys, h: HoldId, at: Link)
    requires SysOk(s) && WritesAt(s, h, at)
    ensures SameWalks(s, RemoveTree(s.tree, at))
  {
    forall g | g in s.holds ensures s.holds[g].node in s.tree.up {
      assert HoldOk(s, g);
    }
    assert SameWalks(s, s.tree);
    if at in s.tree.index {
      WrittenUnread(s, h, s.tree.index[at]);
      DetachSame(s, s.tree, s.tree.index[at]);
    }
  }

  // ----- a new node -----

  function WithNode(s: Sys, n: NodeId, at: Link): Sys
    requires at.parent in s.tree.up
  {
    s.(tree := CreateTree(s.tree, n, at), word := s.word[n := 0])
  }

  /** t' has one more named node n, and the walks of the others are as before. */
  ghost predicate Extends(t: Tree, t': Tree, n: NodeId, at: Link)
  {
    && WellFormed(t') && n !in t.up && t'.up.Keys == t.up.Keys + {n}
    && at !in t.index && t'.index == t.index[at := n]
    && forall m :: m in t.up ==> t'.up[m] == t.up[m] && n !in t.up[m]
  }

  lemma CreateTreeFacts(t: Tree, n: NodeId, at: Link)
    requires WellFormed(t) && n !in t.up && at.parent in t.up && at !in t.index
    ensures Extends(t, CreateTree(t, n, at), n, at)
  {
    AddNodeWellFormed(t, n);
    forall m | m in t.up ensures n !in t.up[m] {
      if n in t.up[m] {
        var k :| 0 <= k < |t.up[m]| && t.up[m][k] == n;
        WalkStep(t, m, k);
      }
    }
    assert n !in t.link;
    AttachWellFormed(AddNode(t, n), n, at.parent, at.name);
  }

  lemma CreateCounts(s: Sys, n: NodeId, at: Link, m: NodeId)
    requires SysOk(s) && n !in s.tree.up && at.parent in s.tree.up && at !in s.tree.index
    ensures Readers(WithNode(s, n, at), m) == Readers(s, m) && Writers(WithNode(s, n, at), m) == Writers(s, m)
    ensures m == n ==> Readers(s, m) == {} && Writers(s, m) == {}
  {
    CreateTreeFacts(s.tree, n, at);
    var r := WithNode(s, n, at);
    forall h | h in s.holds
      ensures ReadsThrough(r, h, m) == ReadsThrough(s, h, m)
      ensures m == n ==> !ReadsThrough(s, h, m) && !Writes(s, h, m)
    {
      assert HoldOk(s, h);
    }
  }

  lemma CreateKeepsOk(s: Sys, n: NodeId, at: Link)
    requires SysOk(s) && n !in s.tree.up && at.parent in s.tree.up && at !in s.tree.index
    ensures SysOk(WithNode(s, n, at))
  {
    CreateTreeFacts(s.tree, n, at);
    var r := WithNode(s, n, at);
    forall h | h in r.holds ensures HoldOk(r, h) {
      assert HoldOk(s, h);
    }
    forall m | m in r.word ensures NodeWordOk(r, m) {
      CreateCounts(s, n, at, m);
      assert m != n ==> NodeWordOk(s, m);
    }
  }

  /** word' has one word more, for the new node n. */
  predicate OneWordMore(word: map<NodeId, int>, word': map<NodeId, int>, n: NodeId)
  {
    n !in word && forall m :: m in word ==> m in word' && word'[m] == word[m]
  }

  lemma CreateLocked(t: Tree, t': Tree, n: NodeId, at: Link, word: map<NodeId, int>, word': map<NodeId, int>, leg: Leg)
    requires WellFormed(t) && Extends(t, t', n, at) && OneWordMore(word, word', n) && LegOk(t, leg)
    requires word.Keys == t.up.Keys
    ensures LegOk(t', leg) && OneWordMore(Locked(t, word, HoldOf(t, leg)), Locked(t', word', HoldOf(t', leg)), n)
  {
    TargetFacts(t, leg);
    assert Body(t', leg.node) == Body(t, leg.node);
    assert Target(t', leg) == Target(t, leg) || (Target(t, leg).None? && Target(t', leg) == Some(n));
  }

  /** A new name makes no refused request grantable. */
  lemma CreateKeepsRefused(t: Tree, t': Tree, n: NodeId, at: Link, word: map<NodeId, int>, word': map<NodeId, int>,
                           req: Request)
    requires WellFormed(t) && Extends(t, t', n, at) && OneWordMore(word, word', n) && word.Keys == t.up.Keys
    requires RequestOk(t, req) && Refused(t, word, req)
    ensures RequestOk(t', req) && Refused(t', word', req)
  {
    match req
    case One(leg) =>
    case Two(leg1, leg2) =>
      CreateLocked(t, t', n, at, word, word', leg1);
  }

  // ----- nodes that are deleted -----

  function Without(s: Sys, gone: set<NodeId>): Sys
  {
    s.(tree := DeleteTree(s.tree, gone), word := s.word - gone)
  }

  /** The leg does not name a node that goes, neither as its directory nor, while it waits, as what it writes. */
  predicate LegSpared(t: Tree, gone: set<NodeId>, leg: Leg, done: bool)
  {
    leg.node !in gone && (!done && LegOk(t, leg) && Target(t, leg).Some? ==> Target(t, leg).value !in gone)
  }

  predicate RequestSpared(t: Tree, gone: set<NodeId>, req: Request, done: bool)
  {
    match req
    case One(leg) => LegSpared(t, gone, leg, done)
    case Two(leg1, leg2) => LegSpared(t, gone, leg1, done) && LegSpared(t, gone, leg2, done)
  }

  predicate WaiterSpared(t: Tree, gone: set<NodeId>, w: Waiter)
  {
    match w
    case PathWaiter(req, done, _, _) => RequestSpared(t, gone, req, done)
    case ForgetWaiter(node, _) => node !in gone
  }

  /** What delete_node asserts of every node that goes; and nobody may look for one of them any more. */
  predicate CanDelete(f: Fuse, gone: set<NodeId>)
  {
    && Closed(f.sys.tree, gone)
    && (forall n :: n in gone ==> n in f.sys.word && f.sys.word[n] == 0)
    && (forall i :: 0 <= i < |f.queue| ==> WaiterSpared(f.sys.tree, gone, f.queue[i]))
  }

  /** No granted path has a node that goes. */
  lemma HoldSpared(s: Sys, gone: set<NodeId>, h: HoldId)
    requires SysOk(s) && h in s.holds && ROOT !in gone && forall n :: n in gone ==> n in s.word && s.word[n] == 0
    ensures s.holds[h].node in s.tree.up && s.holds[h].node !in gone
    ensures s.holds[h].writes.Some? ==> s.holds[h].writes.value !in gone
  {
    ReleaseFindsItsMarks(s, h);
    var node := s.holds[h].node;
    assert NodeOk(s.tree, node);
    if node != ROOT {
      assert Body(s.tree, node)[0] == node;
    }
  }

  lemma DeleteKeepsOk(s: Sys, gone: set<NodeId>)
    requires SysOk(s) && Closed(s.tree, gone) && forall n :: n in gone ==> n in s.word && s.word[n] == 0
    ensures SysOk(Without(s, gone))
  {
    var r := Without(s, gone);
    DeleteWellFormed(s.tree, gone);
    forall h | h in r.holds ensures HoldOk(r, h) {
      assert HoldOk(s, h);
      HoldSpared(s, gone, h);
    }
    forall n | n in r.word ensures NodeWordOk(r, n) {
      assert NodeWordOk(s, n);
      DeleteCounts(s, gone, n);
    }
  }

  lemma DeleteCounts(s: Sys, gone: set<NodeId>, n: NodeId)
    requires SysOk(s) && Closed(s.tree, gone) && forall m :: m in gone ==> m in s.word && s.word[m] == 0
    ensures Readers(Without(s, gone), n) == Readers(s, n) && Writers(Without(s, gone), n) == Writers(s, n)
  {
    DeleteWellFormed(s.tree, gone);
    forall h | h in s.holds ensures ReadsThrough(Without(s, gone), h, n) == ReadsThrough(s, h, n) {
      HoldSpared(s, gone, h);
    }
  }

  /** A leg that is spared locks, and is held up by, the same nodes as before. */
  lemma SparedSame(t: Tree, gone: set<NodeId>, leg: Leg)
    requires WellFormed(t) && Closed(t, gone) && LegOk(t, leg) && LegSpared(t, gone, leg, false)
    ensures var t' := DeleteTree(t, gone);
      LegOk(t', leg) && HoldOf(t', leg) == HoldOf(t, leg) && Body(t', leg.node) == Body(t, leg.node)
    ensures forall n :: n in Body(t, leg.node) ==> n !in gone
  {
    DeleteWellFormed(t, gone);
    BodyInTree(DeleteTree(t, gone), leg.node);
  }

  lemma SparedBusy(t: Tree, word: map<NodeId, int>, gone: set<NodeId>, leg: Leg)
    requires WellFormed(t) && Closed(t, gone) && LegOk(t, leg) && LegSpared(t, gone, leg, false)
    ensures LegOk(DeleteTree(t, gone), leg)
    ensures LegBusy(t, word, leg) ==> LegBusy(DeleteTree(t, gone), word - gone, leg)
  {
    SparedSame(t, gone, leg);
  }

  /** Deleting nodes that nobody waits for makes no refused request grantable. */
  lemma DeleteKeepsRefused(t: Tree, word: map<NodeId, int>, gone: set<NodeId>, req: Request)
    requires WellFormed(t) && Closed(t, gone) && RequestOk(t, req) && RequestSpared(t, gone, req, false)
    requires Refused(t, word, req)
    ensures RequestOk(DeleteTree(t, gone), req) && Refused(DeleteTree(t, gone), word - gone, req)
  {
    var t' := DeleteTree(t, gone);
    match req
    case One(leg) => SparedBusy(t, word, gone, leg);
    case Two(leg1, leg2) =>
      SparedBusy(t, word, gone, leg1);
      SparedSame(t, gone, leg1);
      DeleteWellFormed(t, gone);
      var locked := Locked(t, word, HoldOf(t, leg1));
      SparedBusy(t, locked, gone, leg2);
      assert Locked(t', word - gone, HoldOf(t', leg1)) == locked - gone;
  }

  lemma DeleteWaiter(s: Sys, gone: set<NodeId>, w: Waiter)
    requires SysOk(s) && Closed(s.tree, gone) && WaiterOk(s.tree, w) && WaiterSpared(s.tree, gone, w)
    ensures WaiterOk(Without(s, gone).tree, w)
    ensures WaiterSettled(s, w) ==> WaiterSettled(Without(s, gone), w)
  {
    if w.PathWaiter? && !w.done && WaiterSettled(s, w) {
      DeleteKeepsRefused(s.tree, s.word, gone, w.req);
    }
  }

  lemma DeleteKeepsInv(f: Fuse, gone: set<NodeId>)
    requires Inv(f) && CanDelete(f, gone)
    ensures Inv(f.(sys := Without(f.sys, gone)))
  {
    DeleteKeepsOk(f.sys, gone);
    forall i | 0 <= i < |f.queue|
      ensures WaiterOk(Without(f.sys, gone).tree, f.queue[i])
      ensures WaiterSettled(f.sys, f.queue[i]) ==> WaiterSettled(Without(f.sys, gone), f.queue[i])
    {
      DeleteWaiter(f.sys, gone, f.queue[i]);
    }
  }

  // ----- steps -----

  datatype Step =
    | GetPath(req: Request, memory: Memory)
    | FreePath(h: HoldId, mem: seq<Memory>)
    | FreePath2(h1: HoldId, h2: HoldId, mem: seq<Memory>)
    | Leave(i: nat)
    | AwaitForget(node: NodeId)
    | SleepAgain(i: nat)
    | FindNode(n: NodeId, at: Link)
    | Delete(gone: set<NodeId>)
    | RemoveNode(h: HoldId, at: Link)
    | RenameNode(h: HoldId, under: HoldId, oldAt: Link, newAt: Link, hiding: bool, keeps: bool)
    | ExchangeNode(h: HoldId, under: HoldId, oldAt: Link, newAt: Link, keeps1: bool, keeps2: bool)

  /** Who may do what. The bounds say that fewer than INT_MAX paths are ever asked for at a time. */
  predicate Enabled(f: Fuse, step: Step)
  {
    match step
    case GetPath(req, _) => RequestOk(f.sys.tree, req) && |f.sys.holds| + 2 < INT_MAX
    case FreePath(h, _) => h in f.sys.holds && |f.sys.holds| + 2 * |f.queue| < INT_MAX
    case FreePath2(h1, h2, _) =>
      h1 in f.sys.holds && h2 in f.sys.holds && h1 != h2 && |f.sys.holds| + 2 * |f.queue| < INT_MAX
    case Leave(i) => i < |f.queue| && (f.queue[i].PathWaiter? ==> f.queue[i].done)
    case AwaitForget(node) => node in f.sys.word && f.sys.word[node] != 0
    case SleepAgain(i) =>
      && i < |f.queue| && f.queue[i].ForgetWaiter?
      && f.queue[i].node in f.sys.word && f.sys.word[f.queue[i].node] != 0
    case FindNode(n, at) => n !in f.sys.tree.up && at.parent in f.sys.tree.up && at !in f.sys.tree.index
    case Delete(gone) => CanDelete(f, gone)
    case RemoveNode(h, at) => WritesAt(f.sys, h, at)
    case RenameNode(h, under, oldAt, newAt, hiding, _) => RenameEnabled(f.sys, h, under, oldAt, newAt, hiding)
    case ExchangeNode(h, under, oldAt, newAt, _, _) => ExchangeEnabled(f.sys, h, under, oldAt, newAt)
  }

  /** unlock_path for one or two holds, before the queue is retried */
  function Released(f: Fuse, step: Step): Fuse
    requires SysOk(f.sys) && Enabled(f, step)
  {
    match step
    case FreePath(h, _) =>
      ReleaseKeepsOk(f.sys, h);
      f.(sys := WithoutHold(f.sys, h), movers := {})
    case FreePath2(h1, h2, _) =>
      ReleaseKeepsOk(f.sys, h1);
      var s1 := WithoutHold(f.sys, h1);
      ReleaseKeepsOk(s1, h2);
      f.(sys := WithoutHold(s1, h2), movers := {})
    case _ => f
  }

  /** h has changed names, unless it left everything as it was. */
  function Moved(f: Fuse, t: Tree, h: HoldId): Fuse
  {
    f.(sys := f.sys.(tree := t), movers := if t == f.sys.tree then f.movers else f.movers + {h})
  }

  function Next(f: Fuse, step: Step): Fuse
    requires Inv(f) && Enabled(f, step)
  {
    match step
    case GetPath(req, memory) => Acquire(f, req, memory)
    case FreePath(_, mem) => WakeFrom(Released(f, step), 0, mem)
    case FreePath2(_, _, mem) =>
      ReleasedOk(f, step);
      WakeFrom(Released(f, step), 0, mem)
    case Leave(i) => f.(queue := f.queue[..i] + f.queue[i + 1..])
    case AwaitForget(node) => f.(queue := f.queue + [ForgetWaiter(node, false)])
    case SleepAgain(i) => f.(queue := f.queue[i := ForgetWaiter(f.queue[i].node, false)])
    case FindNode(n, at) => f.(sys := WithNode(f.sys, n, at))
    case Delete(gone) => f.(sys := Without(f.sys, gone))
    case RemoveNode(h, at) => Moved(f, RemoveTree(f.sys.tree, at), h)
    case RenameNode(h, under, oldAt, newAt, hiding, keeps) =>
      RenameSame(f.sys, h, under, oldAt, newAt, hiding, keeps);
      Moved(f, RenameTree(f.sys.tree, oldAt, newAt, hiding, keeps), h)
    case ExchangeNode(h, under, oldAt, newAt, keeps1, keeps2) =>
      ExchangeSame(f.sys, h, under, oldAt, newAt, keeps1, keeps2);
      Moved(f, ExchangeTree(f.sys.tree, oldAt, newAt, keeps1, keeps2), h)
  }

  lemma ReleasedOk(f: Fuse, step: Step)
    requires FuseOk(f) && Enabled(f, step) && (step.FreePath? || step.FreePath2?)
    ensures var r := Released(f, step);
      && FuseOk(r) && r.queue == f.queue && r.movers == {} && r.sys.tree == f.sys.tree
      && |r.sys.holds| <= |f.sys.holds| && r.sys.holds.Keys <= f.sys.holds.Keys
  {
    var h := if step.FreePath? then step.h else step.h1;
    ReleaseKeepsOk(f.sys, h);
    var s1 := WithoutHold(f.sys, h);
    assert s1.holds.Keys <= f.sys.holds.Keys;
    if step.FreePath2? {
      ReleaseKeepsOk(s1, step.h2);
    }
    SubsetCardinality(Released(f, step).sys.holds.Keys, f.sys.holds.Keys);
  }

  // ----- the invariant over runs -----

  /** A release retries the queue: right after it no request left waiting could be granted. */
  lemma ReleaseSettles(f: Fuse, step: Step)
    requires Inv(f) && Enabled(f, step) && (step.FreePath? || step.FreePath2?)
    ensures Inv(Next(f, step)) && Next(f, step).movers == {} && Settled(Next(f, step))
  {
    ReleasedOk(f, step);
    WakeSettles(Released(f, step), 0, step.mem);
  }

  lemma MovedKeepsInv(f: Fuse, t: Tree, h: HoldId)
    requires Inv(f) && h in f.sys.holds && SameWalks(f.sys, t)
    ensures Inv(Moved(f, t, h))
  {
    MoveKeepsOk(f.sys, t);
  }

  lemma FindNodeWaiter(s: Sys, n: NodeId, at: Link, w: Waiter)
    requires SysOk(s) && n !in s.tree.up && at.parent in s.tree.up && at !in s.tree.index && WaiterOk(s.tree, w)
    ensures WaiterOk(WithNode(s, n, at).tree, w)
    ensures WaiterSettled(s, w) ==> WaiterSettled(WithNode(s, n, at), w)
  {
    var r := WithNode(s, n, at);
    CreateTreeFacts(s.tree, n, at);
    if WaiterSettled(s, w) && w.PathWaiter? && !w.done {
      CreateKeepsRefused(s.tree, r.tree, n, at, s.word, r.word, w.req);
    }
  }

  lemma FindNodeKeepsInv(f: Fuse, step: Step)
    requires Inv(f) && Enabled(f, step) && step.FindNode?
    ensures Inv(Next(f, step))
  {
    CreateKeepsOk(f.sys, step.n, step.at);
    forall i | 0 <= i < |f.queue|
      ensures WaiterOk(WithNode(f.sys, step.n, step.at).tree, f.queue[i])
      ensures WaiterSettled(f.sys, f.queue[i]) ==> WaiterSettled(WithNode(f.sys, step.n, step.at), f.queue[i])
    {
      FindNodeWaiter(f.sys, step.n, step.at, f.queue[i]);
    }
  }

  lemma NextKeepsInv(f: Fuse, step: Step)
    requires Inv(f) && Enabled(f, step)
    ensures Inv(Next(f, step))
  {
    match step
    case GetPath(req, memory) => AcquireKeepsInv(f, req, memory);
    case FreePath(_, _) => ReleaseSettles(f, step);
    case FreePath2(_, _, _) => ReleaseSettles(f, step);
    case Leave(i) =>
    case AwaitForget(node) =>
    case SleepAgain(i) =>
    case FindNode(n, at) => FindNodeKeepsInv(f, step);
    case Delete(gone) => DeleteKeepsInv(f, gone);
    case RemoveNode(h, at) =>
      RemoveSame(f.sys, h, at);
      MovedKeepsInv(f, RemoveTree(f.sys.tree, at), h);
    case RenameNode(h, under, oldAt, newAt, hiding, keeps) =>
      RenameSame(f.sys, h, under, oldAt, newAt, hiding, keeps);
      MovedKeepsInv(f, RenameTree(f.sys.tree, oldAt, newAt, hiding, keeps), h);
    case ExchangeNode(h, under, oldAt, newAt, keeps1, keeps2) =>
      ExchangeSame(f.sys, h, under, oldAt, newAt, keeps1, keeps2);
      MovedKeepsInv(f, ExchangeTree(f.sys.tree, oldAt, newAt, keeps1, keeps2), h);
  }

  /** Only Delete takes nodes away. */
  lemma KeysStay(f: Fuse, step: Step)
    requires Inv(f) && Enabled(f, step) && !step.Delete?
    ensures f.sys.tree.up.Keys <= Next(f, step).sys.tree.up.Keys
  {
    match step
    case FreePath(_, _) => TreeStays(f, step);
    case FreePath2(_, _, _) => TreeStays(f, step);
    case RemoveNode(h, at) => RemoveSame(f.sys, h, at);
    case RenameNode(h, under, oldAt, newAt, hiding, keeps) => RenameSame(f.sys, h, under, oldAt, newAt, hiding, keeps);
    case ExchangeNode(h, under, oldAt, newAt, keeps1, keeps2) =>
      ExchangeSame(f.sys, h, under, oldAt, newAt, keeps1, keeps2);
    case _ =>
  }

  lemma TreeStays(f: Fuse, step: Step)
    requires Inv(f) && Enabled(f, step) && (step.FreePath? || step.FreePath2?)
    ensures Next(f, step).sys.tree == f.sys.tree
  {
    ReleasedOk(f, step);
    WakeSettles(Released(f, step), 0, step.mem);
  }

  /** fuse_new: only the root, nothing locked. */
  const INITIAL: Fuse :=
    Fuse(Sys(Tree(map[], map[], map[ROOT := [ROOT]]), map[ROOT := 0], map[]), [], 0, {})

  lemma InitialInv()
    ensures Inv(INITIAL)
  {
    assert NodeOk(INITIAL.sys.tree, ROOT);
    assert Readers(INITIAL.sys, ROOT) == {} && Writers(INITIAL.sys, ROOT) == {};
  }

  ghost predicate Leads(f: Fuse, step: Step, f': Fuse)
  {
    Inv(f) ==> Enabled(f, step) && f' == Next(f, step)
  }

  ghost predicate Run(trace: seq<Fuse>, steps: seq<Step>)
  {
    && |trace| == |steps| + 1 && trace[0] == INITIAL
    && forall i :: 0 <= i < |steps| ==> Leads(trace[i], steps[i], trace[i + 1])
  }

  /** The invariant holds in every state that any interleaving of steps can reach. */
  lemma {:induction false} RunKeepsInv(trace: seq<Fuse>, steps: seq<Step>, i: nat)
    requires Run(trace, steps) && i < |trace|
    ensures Inv(trace[i])
  {
    if i == 0 {
    } else {
      RunKeepsInv(trace, steps, i - 1);
      assert Leads(trace[i - 1], steps[i - 1], trace[i - 1 + 1]);
      NextKeepsInv(trace[i - 1], steps[i - 1]);
    }
  }

  // ----- the walk of a hold -----

  /** As long as h is held, it is the same path, and the way up from its node is the same. */
  ghost predicate WalkStays(f: Fuse, h: HoldId, f': Fuse)
  {
    && h in f.sys.holds && h in f'.sys.holds && f'.sys.holds[h] == f.sys.holds[h]
    && var node := f.sys.holds[h].node;
    && node in f.sys.tree.up && node in f'.sys.tree.up && f'.sys.tree.up[node] == f.sys.tree.up[node]
  }

  lemma ReleaseStays(f: Fuse, step: Step, h: HoldId)
    requires Inv(f) && Enabled(f, step) && (step.FreePath? || step.FreePath2?)
    ensures var r := Released(f, step); r.sys.tree == f.sys.tree && r.next == f.next && FuseOk(r)
    ensures var r := Released(f, step);
      h in r.sys.holds ==> h in f.sys.holds && r.sys.holds[h] == f.sys.holds[h]
  {
    ReleasedOk(f, step);
  }

  /** A hold that is out stays out, and one that stays keeps its walk. */
  lemma StepKeepsWalk(f: Fuse, step: Step, h: HoldId)
    requires Inv(f) && Enabled(f, step)
    ensures f.next <= Next(f, step).next
    ensures h in Next(f, step).sys.holds && h < f.next ==> WalkStays(f, h, Next(f, step))
  {
    assert h in f.sys.holds ==> HoldOk(f.sys, h);
    match step
    case GetPath(req, memory) => TakeStays(f.sys, f.next, req, memory);
    case FreePath(_, mem) => FreeKeepsWalk(f, step, h, mem);
    case FreePath2(_, _, mem) => FreeKeepsWalk(f, step, h, mem);
    case FindNode(n, at) => CreateTreeFacts(f.sys.tree, n, at);
    case Delete(gone) =>
      if h in f.sys.holds {
        HoldSpared(f.sys, gone, h);
        DeleteWellFormed(f.sys.tree, gone);
      }
    case RemoveNode(h', at) => RemoveSame(f.sys, h', at);
    case RenameNode(h', under, oldAt, newAt, hiding, keeps) =>
      RenameSame(f.sys, h', under, oldAt, newAt, hiding, keeps);
    case ExchangeNode(h', under, oldAt, newAt, keeps1, keeps2) =>
      ExchangeSame(f.sys, h', under, oldAt, newAt, keeps1, keeps2);
    case _ =>
  }

  lemma FreeKeepsWalk(f: Fuse, step: Step, h: HoldId, mem: seq<Memory>)
    requires Inv(f) && Enabled(f, step) && (step.FreePath? || step.FreePath2?) && mem == step.mem
    ensures f.next <= Next(f, step).next
    ensures h in Next(f, step).sys.holds && h < f.next ==> WalkStays(f, h, Next(f, step))
  {
    ReleasedOk(f, step);
    ReleaseStays(f, step, h);
    WakeStays(Released(f, step), 0, mem);
    assert h in f.sys.holds ==> HoldOk(f.sys, h);
  }

  lemma StaysOn(f: Fuse, h: HoldId, f1: Fuse, step: Step)
    requires Inv(f1) && Enabled(f1, step) && h < f.next <= f1.next && (h in f1.sys.holds ==> WalkStays(f, h, f1))
    ensures f.next <= Next(f1, step).next && (h in Next(f1, step).sys.holds ==> WalkStays(f, h, Next(f1, step)))
  {
    StepKeepsWalk(f1, step, h);
  }

  lemma HeldNow(f: Fuse, h: HoldId)
    requires Inv(f) && h in f.sys.holds
    ensures h < f.next && WalkStays(f, h, f)
  {
    assert HoldOk(f.sys, h);
  }

  /** Whatever is renamed, exchanged, removed, made or deleted meanwhile, a held path does not change. */
  lemma {:induction false} HeldStays(trace: seq<Fuse>, steps: seq<Step>, i: nat, j: nat, h: HoldId)
    requires Run(trace, steps) && i <= j < |trace| && h in trace[i].sys.holds
    ensures h < trace[i].next <= trace[j].next
    ensures h in trace[j].sys.holds ==> WalkStays(trace[i], h, trace[j])
    decreases j - i
  {
    if i == j {
      RunKeepsInv(trace, steps, i);
      HeldNow(trace[i], h);
    } else {
      HeldStays(trace, steps, i, j - 1, h);
      StepOfRun(trace, steps, j - 1);
      StaysOn(trace[i], h, trace[j - 1], steps[j - 1]);
    }
  }

  lemma StepOfRun(trace: seq<Fuse>, steps: seq<Step>, i: nat)
    requires Run(trace, steps) && i < |steps|
    ensures Inv(trace[i]) && Enabled(trace[i], steps[i]) && trace[i + 1] == Next(trace[i], steps[i])
  {
    RunKeepsInv(trace, steps, i);
    assert Leads(trace[i], steps[i], trace[i + 1]);
  }

  /**
    The release walk visits exactly the nodes that the acquiring walk has
    locked, at whatever point of a run the path is given back, and finds its
    marks on every one of them.
   */
  lemma ReleaseVisitsTheSame(trace: seq<Fuse>, steps: seq<Step>, i: nat, j: nat, h: HoldId)
    requires Run(trace, steps) && i <= j < |trace| && h in trace[i].sys.holds && h in trace[j].sys.holds
    ensures WalkStays(trace[i], h, trace[j])
    ensures Body(trace[j].sys.tree, trace[j].sys.holds[h].node) == Body(trace[i].sys.tree, trace[i].sys.holds[h].node)
    ensures forall n :: n in Body(trace[i].sys.tree, trace[i].sys.holds[h].node) ==>
              && n in trace[j].sys.word && h in Readers(trace[j].sys, n)
              && trace[j].sys.word[n] != 0 && trace[j].sys.word[n] != TREELOCK_WRITE
  {
    HeldStays(trace, steps, i, j, h);
    RunKeepsInv(trace, steps, j);
    ReleaseFindsItsMarks(trace[j].sys, h);
  }

  /**
    In every reachable state the lock word says exactly who has the node:
    -1 iff one granted request writes it, n or INT_MIN + n with n >= 1 iff n
    granted requests read through it, 0 iff nobody has it; never both.
   */
  lemma WordsAreExact(trace: seq<Fuse>, steps: seq<Step>, i: nat, n: NodeId)
    requires Run(trace, steps) && i < |trace| && n in trace[i].sys.tree.up
    ensures var s := trace[i].sys;
      && n in s.word
      && (s.word[n] == TREELOCK_WRITE <==> |Writers(s, n)| == 1)
      && |Writers(s, n)| <= 1
      && (Writers(s, n) == {} || Readers(s, n) == {})
      && (s.word[n] > 0 ==> |Readers(s, n)| == s.word[n])
      && (s.word[n] < TREELOCK_WRITE ==> |Readers(s, n)| == s.word[n] - TREELOCK_WAIT_OFFSET)
      && (Readers(s, n) != {} ==> s.word[n] == |Readers(s, n)| || s.word[n] == TREELOCK_WAIT_OFFSET + |Readers(s, n)|)
      && (s.word[n] == 0 <==> Readers(s, n) == {} && Writers(s, n) == {})
  {
    RunKeepsInv(trace, steps, i);
    assert NodeWordOk(trace[i].sys, n);
  }

  /**
    No lost wakeup. A request that is waiting and could be granted waits only
    for a hold that has changed names and is still to be released; that
    release will retry it. And whoever waits in forget_node for a node that is
    unlocked by now has been signalled.
   */
  lemma NoLostWakeup(trace: seq<Fuse>, steps: seq<Step>, i: nat, k: nat)
    requires Run(trace, steps) && i < |trace| && k < |trace[i].queue|
    ensures WaiterOk(trace[i].sys.tree, trace[i].queue[k])
    ensures match trace[i].queue[k]
            case PathWaiter(req, done, _, _) =>
              || done
              || Refused(trace[i].sys.tree, trace[i].sys.word, req)
              || exists h :: h in trace[i].movers && h in trace[i].sys.holds
            case ForgetWaiter(node, signalled) =>
              node in trace[i].sys.word && (trace[i].sys.word[node] == 0 ==> signalled)
  {
    RunKeepsInv(trace, steps, i);
    assert WaiterOk(trace[i].sys.tree, trace[i].queue[k]);
    if trace[i].movers == {} || trace[i].queue[k].ForgetWaiter? {
      assert WaiterSettled(trace[i].sys, trace[i].queue[k]);
    } else {
      var h :| h in trace[i].movers;
    }
  }

  // ----- what a request is told -----

  /** A request that is granted at once has all its paths, locked as asked, and nothing else is different. */
  lemma GrantedAtOnce(f: Fuse, req: Request, memory: Memory)
    requires Inv(f) && Enabled(f, GetPath(req, memory)) && Next(f, GetPath(req, memory)).next != f.next
    ensures var r := Next(f, GetPath(req, memory));
      && AllConnected(f.sys.tree, req) && RequestLocked(f.sys.tree, req, f.sys.word, r.sys.word) && r.queue == f.queue
      && exists got: seq<Hold> ::
           |got| == r.next - f.next && HoldsFit(f.sys.tree, req, got) && Granted(r.sys, f.next, got)
  {
    var a := TryRequest(f.sys.tree, f.sys.word, req, memory);
    RequestDoes(f.sys.tree, f.sys.word, req, memory);
    RequestOutcome(f.sys.tree, f.sys.word, req, memory);
    TakeGrants(f.sys, f.next, a);
  }

  function PositionBefore(f: Fuse, step: Step, k: nat): nat
  {
    if step.Leave? && k >= step.i then k + 1 else k
  }

  predicate SameWaiter(w: Waiter, w': Waiter)
  {
    match w
    case PathWaiter(req, _, _, _) => w'.PathWaiter? && w'.req == req
    case ForgetWaiter(node, _) => w'.ForgetWaiter? && w'.node == node
  }

  /** First come, first in the queue: whoever is new is last, and nobody changes places. */
  lemma QueueKeepsOrder(f: Fuse, step: Step, k: nat)
    requires Inv(f) && Enabled(f, step) && k < |Next(f, step).queue|
    ensures var before := PositionBefore(f, step, k);
      if before < |f.queue| then SameWaiter(f.queue[before], Next(f, step).queue[k])
      else before == |f.queue| && k == |Next(f, step).queue| - 1 && (step.GetPath? || step.AwaitForget?)
  {
    if step.FreePath? || step.FreePath2? {
      FreeChanges(f, step, k);
    }
  }

  lemma {:induction false} WakeChanges(f: Fuse, i: nat, mem: seq<Memory>, k: nat)
    requires FuseOk(f) && i <= |f.queue| && |f.sys.holds| + 2 * (|f.queue| - i) < INT_MAX
    ensures |WakeFrom(f, i, mem).queue| == |f.queue|
    ensures k < |f.queue| ==>
      var w, w' := f.queue[k], WakeFrom(f, i, mem).queue[k];
      SameWaiter(w, w') && (w.PathWaiter? && w' != w ==> !w.done && w'.done)
    decreases |f.queue| - i
  {
    if i < |f.queue| {
      WakeOneKeepsOk(f, i, MemoryAt(mem, i));
      WakeChanges(WakeOne(f, i, MemoryAt(mem, i)), i + 1, mem, k);
    }
  }

  lemma FreeChanges(f: Fuse, step: Step, k: nat)
    requires Inv(f) && Enabled(f, step) && (step.FreePath? || step.FreePath2?)
    ensures |Next(f, step).queue| == |f.queue|
    ensures k < |f.queue| ==>
      var w, w' := f.queue[k], Next(f, step).queue[k];
      SameWaiter(w, w') && (w.PathWaiter? && w' != w ==> !w.done && w'.done)
  {
    ReleasedOk(f, step);
    WakeChanges(Released(f, step), 0, step.mem, k);
  }

  /** The request at position k was told its outcome, and the paths it is told of are granted. */
  ghost predicate IsTold(f: Fuse, w: Waiter, memory: Memory, r: Fuse, w': Waiter)
    requires FuseOk(f) && w.PathWaiter? && RequestOk(f.sys.tree, w.req)
  {
    && w'.PathWaiter? && w'.done && w'.req == w.req && Told(f.sys.tree, w.req, memory, w'.err, w'.got)
    && exists first {:trigger Granted(r.sys, first, w'.got)} :: f.next <= first && Granted(r.sys, first, w'.got)
  }

  /** A request that was waiting is told its outcome by a release only, and the paths it is told of are granted then. */
  lemma WokenIsTold(f: Fuse, step: Step, k: nat)
    requires Inv(f) && Enabled(f, step) && k < |Next(f, step).queue| && PositionBefore(f, step, k) < |f.queue|
    ensures var w, w' := f.queue[PositionBefore(f, step, k)], Next(f, step).queue[k];
      w.PathWaiter? && w' != w ==>
        !w.done && (step.FreePath? || step.FreePath2?) && IsTold(f, w, MemoryAt(step.mem, k), Next(f, step), w')
  {
    if step.FreePath? || step.FreePath2? {
      FreeTells(f, step, k);
    }
  }

  lemma FreeTells(f: Fuse, step: Step, k: nat)
    requires Inv(f) && Enabled(f, step) && (step.FreePath? || step.FreePath2?) && k < |f.queue|
    ensures |Next(f, step).queue| == |f.queue|
    ensures var w, w' := f.queue[k], Next(f, step).queue[k];
      w.PathWaiter? && w' != w ==> !w.done && IsTold(f, w, MemoryAt(step.mem, k), Next(f, step), w') == true
  {
    FreeChanges(f, step, k);
    if f.queue[k].PathWaiter? && !f.queue[k].done {
      ReleasedOk(f, step);
      ReleaseStays(f, step, 0);
      WakeAnswers(Released(f, step), 0, step.mem, k);
    }
  }

  /** A release passes nobody over: who still waits was refused by what was locked, or had gone to earlier requests. */
  lemma NobodyPassedOver(f: Fuse, step: Step, k: nat)
    requires Inv(f) && Enabled(f, step) && (step.FreePath? || step.FreePath2?)
    requires k < |f.queue| && f.queue[k].PathWaiter? && !f.queue[k].done
    ensures FuseOk(Released(f, step)) && Released(f, step).queue == f.queue
    ensures InTurn(Released(f, step), k, Next(f, step))
  {
    ReleasedOk(f, step);
    WakeInOrder(Released(f, step), 0, step.mem, k);
  }

  // ----- the same, over runs -----

  /** What a request has been told: nothing yet, or success with one path for each leg, or an error with none. */
  ghost predicate OutcomeOk(w: Waiter)
  {
    w.PathWaiter? ==>
      && (w.done <==> w.err != Again)
      && if w.err != Ok then w.got == []
         else match w.req
              case One(leg) => |w.got| == 1 && w.got[0].node == leg.node
              case Two(leg1, leg2) => |w.got| == 2 && w.got[0].node == leg1.node && w.got[1].node == leg2.node
  }

  lemma StepKeepsOutcomes(f: Fuse, step: Step, k: nat)
    requires Inv(f) && Enabled(f, step) && k < |Next(f, step).queue|
    requires forall j :: 0 <= j < |f.queue| ==> OutcomeOk(f.queue[j])
    ensures OutcomeOk(Next(f, step).queue[k])
  {
    var before := PositionBefore(f, step, k);
    if before < |f.queue| {
      QueueKeepsOrder(f, step, k);
      WokenIsTold(f, step, k);
    } else {
      QueueKeepsOrder(f, step, k);
    }
  }

  /** In every reachable state: err is Ok exactly if all paths of the request were got, and none otherwise. */
  lemma {:induction false} OutcomesAreTrue(trace: seq<Fuse>, steps: seq<Step>, i: nat, k: nat)
    requires Run(trace, steps) && i < |trace| && k < |trace[i].queue|
    ensures OutcomeOk(trace[i].queue[k])
  {
    if i > 0 {
      StepOfRun(trace, steps, i - 1);
      var queue := trace[i - 1].queue;
      forall j | 0 <= j < |queue| ensures OutcomeOk(queue[j]) {
        OutcomesAreTrue(trace, steps, i - 1, j);
      }
      StepKeepsOutcomes(trace[i - 1], steps[i - 1], k);
    }
  }

  predicate Releases(step: Step, h: HoldId)
  {
    match step
    case FreePath(h1, _) => h == h1
    case FreePath2(h1, h2, _) => h == h1 || h == h2
    case _ => false
  }

  lemma OnlyReleaseTakes(f: Fuse, step: Step, h: HoldId)
    requires Inv(f) && Enabled(f, step) && h in f.sys.holds && !Releases(step, h)
    ensures h in Next(f, step).sys.holds
  {
    match step
    case GetPath(req, memory) => TakeStays(f.sys, f.next, req, memory);
    case FreePath(_, mem) => ReleasedOk(f, step); WakeStays(Released(f, step), 0, mem);
    case FreePath2(_, _, mem) => ReleasedOk(f, step); WakeStays(Released(f, step), 0, mem);
    case _ =>
  }

  /** A granted path stays locked until it is given back. */
  lemma {:induction false} HeldUntilReleased(trace: seq<Fuse>, steps: seq<Step>, i: nat, j: nat, h: HoldId)
    requires Run(trace, steps) && i <= j < |trace| && h in trace[i].sys.holds && h !in trace[j].sys.holds
    ensures exists m :: i <= m < j && Releases(steps[m], h)
    decreases j - i
  {
    if !Releases(steps[i], h) {
      StepOfRun(trace, steps, i);
      OnlyReleaseTakes(trace[i], steps[i], h);
      HeldUntilReleased(trace, steps, i + 1, j, h);
    }
  }

  /** No two granted paths write the same node, and none leads through a node that another one writes. */
  lemma WrittenAlone(trace: seq<Fuse>, steps: seq<Step>, i: nat, g: HoldId, h: HoldId, w: NodeId)
    requires Run(trace, steps) && i < |trace| && g in trace[i].sys.holds && h in trace[i].sys.holds && g != h
    requires trace[i].sys.holds[g].writes == Some(w)
    ensures trace[i].sys.holds[h].writes != Some(w) && !ReadsThrough(trace[i].sys, h, w)
  {
    RunKeepsInv(trace, steps, i);
    var s := trace[i].sys;
    assert HoldOk(s, g) && NodeWordOk(s, w);
    assert g in Writers(s, w);
    if h in Writers(s, w) {
      SubsetCardinality({g, h}, Writers(s, w));
      assert false;
    }
    assert Readers(s, w) == {};
  }
}
