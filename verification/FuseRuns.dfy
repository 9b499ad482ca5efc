/**
  The path locks and the counted nodes together: both work on the one tree of
  struct fuse. What the operations on nodes take for granted follows from the
  paths that are locked while they run, and no node is deleted that is locked
  or that somebody waits for.
 */
module FuseRuns {
  import opened Wrappers
  import opened PathTree
  import opened PathLocks
  import opened PathRequests
  import opened PathQueue
  import opened NodeRefs
  import opened NodeMoves
  import PR = PathRuns
  import NI = NodeIndex
  import NR = NodeRuns

  datatype World = World(f: Fuse, r: Refs)

  // ----- what the kernel looks at -----

  /** The directory of the leg is looked up, and so is the node it is going to write, if it still waits. */
  predicate LegSeen(r: Refs, leg: Leg, done: bool)
  {
    && LegOk(r.tree, leg) && Live(r, leg.node)
    && (!done && Target(r.tree, leg).Some? ==> Live(r, Target(r.tree, leg).value))
  }

  predicate RequestSeen(r: Refs, req: Request, done: bool)
  {
    match req
    case One(leg) => LegSeen(r, leg, done)
    case Two(leg1, leg2) => LegSeen(r, leg1, done) && LegSeen(r, leg2, done)
  }

  predicate WaiterSeen(r: Refs, w: Waiter)
  {
    match w
    case PathWaiter(req, done, _, _) => RequestSeen(r, req, done)
    case ForgetWaiter(node, _) => Live(r, node)
  }

  predicate HoldSeen(r: Refs, hold: Hold)
  {
    Live(r, hold.node) && (hold.writes.Some? ==> Live(r, hold.writes.value))
  }

  ghost predicate HoldsSeen(r: Refs, holds: map<HoldId, Hold>)
  {
    forall h {:trigger holds[h]} :: h in holds ==> HoldSeen(r, holds[h])
  }

  ghost predicate QueueSeen(r: Refs, queue: seq<Waiter>)
  {
    forall i {:trigger queue[i]} :: 0 <= i < |queue| ==> WaiterSeen(r, queue[i])
  }

  /** The invariant: both halves are sound, they share the tree, and nodes in use are looked up. */
  ghost predicate WorldInv(w: World)
  {
    && Inv(w.f) && RefsOk(w.r) && w.f.sys.tree == w.r.tree
    && HoldsSeen(w.r, w.f.sys.holds) && QueueSeen(w.r, w.f.queue)
  }

  // ----- acts -----

  datatype Act =
    | OnPaths(step: PR.Step)
    | OnNodes(op: NR.Op)
    | Finds(n: NodeId, at: Link)
    | Removes(h: HoldId, at: Link)
    | Renames(h: HoldId, under: HoldId, src: Link, dst: Link, hiding: bool, keeps: bool)
    | Exchanges(h: HoldId, under: HoldId, src: Link, dst: Link, keepsOld: bool, keepsNew: bool)

  /** Nobody who waits names n. */
  ghost predicate Unawaited(f: Fuse, n: NodeId)
  {
    forall i {:trigger f.queue[i]} :: 0 <= i < |f.queue| ==> PR.WaiterSpared(f.sys.tree, {n}, f.queue[i])
  }

  /** n may lose its last lookup: forget_node has waited for its lock, and nobody still asks for it. */
  ghost predicate Forgettable(f: Fuse, n: NodeId)
  {
    n in f.sys.word && f.sys.word[n] == 0 && Unawaited(f, n)
  }

  /**
    What is left to the kernel: it looks at the nodes it asks about for as
    long as it waits for the answer, it gives back only lookups it has, and
    what it unlinks in a cache that remembers nodes it has looked at itself.
   */
  ghost predicate Allowed(w: World, remember: bool, act: Act)
  {
    match act
    case OnPaths(step) => PR.Enabled(w.f, step) && AllowedStep(w, step)
    case OnNodes(op) => NR.Enabled(w.r, remember, op) && AllowedOp(w, op)
    case Finds(n, at) => NR.Enabled(w.r, remember, NR.New(n, at))
    case Removes(h, at) => PR.WritesAt(w.f.sys, h, at) && CanUnlink(w.r, at, remember)
    case Renames(h, under, src, dst, hiding, _) =>
      PR.RenameEnabled(w.f.sys, h, under, src, dst, hiding) && (hiding || CanUnlink(w.r, dst, remember))
    case Exchanges(h, under, src, dst, _, _) => PR.ExchangeEnabled(w.f.sys, h, under, src, dst) && src != dst
  }

  ghost predicate AllowedStep(w: World, step: PR.Step)
  {
    match step
    case GetPath(req, _) => RequestSeen(w.r, req, false)
    case AwaitForget(node) => Live(w.r, node)
    case FreePath(_, _) => true
    case FreePath2(_, _, _) => true
    case Leave(_) => true
    case SleepAgain(_) => true
    case _ => false
  }

  ghost predicate AllowedOp(w: World, op: NR.Op)
  {
    match op
    case Known(_) => true
    case Wastes => true
    case Pins(_) => true
    case Unpins(_) => true
    case Forgets(n, k) => n in w.r.nlookup && (k == w.r.nlookup[n] ==> Forgettable(w.f, n))
    case Cleans(n) => n in w.r.refctr && (w.r.refctr[n] == 1 ==> Forgettable(w.f, n))
    case _ => false
  }

  function OpOf(act: Act): NR.Op
    requires !act.OnPaths?
  {
    match act
    case OnNodes(op) => op
    case Finds(n, at) => NR.New(n, at)
    case Removes(_, at) => NR.Removes(at)
    case Renames(_, _, src, dst, hiding, keeps) => NR.Renames(src, dst, hiding, keeps)
    case Exchanges(_, _, src, dst, keepsOld, keepsNew) => NR.Exchanges(src, dst, keepsOld, keepsNew)
  }

  ghost function RefsAfter(w: World, remember: bool, act: Act): Refs
    requires WorldInv(w) && Allowed(w, remember, act)
  {
    if act.OnPaths? then w.r
    else
      NodesReady(w, remember, act);
      NR.Apply(w.r, remember, OpOf(act))
  }

  /** The nodes that an act deletes. */
  ghost function Gone(w: World, remember: bool, act: Act): set<NodeId>
    requires WorldInv(w) && Allowed(w, remember, act)
  {
    w.r.tree.up.Keys - RefsAfter(w, remember, act).tree.up.Keys
  }

  /** What an act is for the path locks; an operation on nodes alone deletes what it deletes. */
  ghost function StepOf(w: World, remember: bool, act: Act): PR.Step
    requires WorldInv(w) && Allowed(w, remember, act)
  {
    match act
    case OnPaths(step) => step
    case OnNodes(_) => PR.Delete(Gone(w, remember, act))
    case Finds(n, at) => PR.FindNode(n, at)
    case Removes(h, at) => PR.RemoveNode(h, at)
    case Renames(h, under, src, dst, hiding, keeps) => PR.RenameNode(h, under, src, dst, hiding, keeps)
    case Exchanges(h, under, src, dst, keepsOld, keepsNew) => PR.ExchangeNode(h, under, src, dst, keepsOld, keepsNew)
  }

  ghost function Next(w: World, remember: bool, act: Act): World
    requires WorldInv(w) && Allowed(w, remember, act)
  {
    PathsReady(w, remember, act);
    World(PR.Next(w.f, StepOf(w, remember, act)), RefsAfter(w, remember, act))
  }

  // ----- the premises of the operations follow from the locks -----

  lemma DirectorySeen(w: World, h: HoldId)
    requires WorldInv(w) && h in w.f.sys.holds
    ensures Live(w.r, w.f.sys.holds[h].node)
  {
    assert HoldSeen(w.r, w.f.sys.holds[h]);
  }

  /** The node that a path writes can get any name in the directory of another path: it lies on no locked walk. */
  lemma WrittenWaits(w: World, h: HoldId, under: HoldId, n: NodeId, at: Link, held: set<NodeId>)
    requires WorldInv(w) && Writes(w.f.sys, h, n) && under in w.f.sys.holds && w.f.sys.holds[under].node == at.parent
    requires at in w.r.tree.index ==> w.r.tree.index[at] in held
    ensures Waiting(w.r, n, at, held)
  {
    DirectorySeen(w, under);
    WrittenIsUnread(w.f.sys, h, n, under);
    assert HoldOk(w.f.sys, h);
  }

  lemma RenameReady(w: World, remember: bool, act: Act)
    requires WorldInv(w) && act.Renames? && Allowed(w, remember, act)
    ensures CanRename(w.r, act.src, act.dst, remember, act.hiding)
  {
    DirectorySeen(w, act.h);
    DirectorySeen(w, act.under);
    if act.src in w.r.tree.index && !(act.dst in w.r.tree.index && act.hiding) {
      WrittenWaits(w, act.h, act.under, w.r.tree.index[act.src], act.dst, Holder(w.r, act.dst));
    }
  }

  lemma ExchangeReady(w: World, remember: bool, act: Act)
    requires WorldInv(w) && act.Exchanges? && Allowed(w, remember, act)
    ensures CanExchange(w.r, act.src, act.dst)
  {
    var held := Holder(w.r, act.src) + Holder(w.r, act.dst);
    DirectorySeen(w, act.h);
    DirectorySeen(w, act.under);
    if act.src in w.r.tree.index {
      WrittenWaits(w, act.h, act.under, w.r.tree.index[act.src], act.dst, held);
    }
    if act.dst in w.r.tree.index {
      WrittenWaits(w, act.under, act.h, w.r.tree.index[act.dst], act.src, held);
    }
  }

  /** Whatever the kernel may ask for, the premises of the operation on the counted nodes hold. */
  lemma NodesReady(w: World, remember: bool, act: Act)
    requires WorldInv(w) && Allowed(w, remember, act) && !act.OnPaths?
    ensures NR.Enabled(w.r, remember, OpOf(act))
  {
    match act
    case OnNodes(_) =>
    case Finds(_, _) =>
    case Removes(h, at) => DirectorySeen(w, h);
    case Renames(_, _, _, _, _, _) => RenameReady(w, remember, act);
    case Exchanges(_, _, _, _, _, _) => ExchangeReady(w, remember, act);
  }

  // ----- no locked node is deleted -----

  /** A locked node is looked up, or the lock comes from a child: the premise under which nodes may be given up. */
  lemma LocksAreHeld(w: World)
    requires WorldInv(w)
    ensures LocksHeld(w.r, w.f.sys.word)
  {
    forall d | d in w.r.tree.up ensures LockHeld(w.r, w.f.sys.word, d) {
      NodeLockHeld(w, d);
    }
  }

  lemma NodeLockHeld(w: World, d: NodeId)
    requires WorldInv(w) && d in w.r.tree.up
    ensures LockHeld(w.r, w.f.sys.word, d)
  {
    var s := w.f.sys;
    assert d in s.word.Keys;
    assert NodeWordOk(s, d);
    if h :| h in Writers(s, d) {
      assert HoldSeen(w.r, s.holds[h]);
    } else if s.word[d] != 0 && !Live(w.r, d) {
      var h :| h in Readers(s, d);
      ReaderLocksChild(w, h, d);
    }
  }

  /** A path that reads through d, but does not start there, reads through a child of d as well. */
  lemma ReaderLocksChild(w: World, h: HoldId, d: NodeId)
    requires WorldInv(w) && ReadsThrough(w.f.sys, h, d) && !Live(w.r, d)
    ensures exists c :: c in Children(w.r.tree, d) && c in w.f.sys.word && w.f.sys.word[c] != 0
  {
    var s := w.f.sys;
    var n := s.holds[h].node;
    assert HoldSeen(w.r, s.holds[h]);
    var k :| 0 <= k < |Body(s.tree, n)| && Body(s.tree, n)[k] == d;
    assert NodeOk(s.tree, n);
    WalkStep(s.tree, n, k - 1);
    var c := s.tree.up[n][k - 1];
    assert c == Body(s.tree, n)[k - 1];
    ReleaseFindsItsMarks(s, h);
    assert c in Children(w.r.tree, d);
  }

  /** Whoever waits is not harmed by deleting nodes that nobody looks at. */
  lemma UnseenSpared(r: Refs, gone: set<NodeId>, q: Waiter)
    requires WaiterSeen(r, q) && forall d :: d in gone ==> !Live(r, d)
    ensures PR.WaiterSpared(r.tree, gone, q)
  {
  }

  /** What falls with a reference that is owed can be deleted, if nobody waits for it. */
  lemma FallenDeletable(f: Fuse, s: Refs, n: NodeId)
    requires Inv(f) && RefsOk(s) && f.sys.tree == s.tree && n in s.pins && n in s.tree.up
    requires LocksHeld(s, f.sys.word) && QueueSeen(s, f.queue)
    ensures PR.CanDelete(f, Fallen(s, n))
  {
    var gone := Fallen(s, n);
    UnrefEffect(s, {}, n);
    FallenUnlocked(s, n, f.sys.word);
    FallenInTree(s.tree, n, Falls(s.refctr, s.tree.up[n]));
    forall m | m in s.tree.link && s.tree.link[m].parent in gone ensures m in gone {
      assert m in Children(s.tree, s.tree.link[m].parent);
    }
    forall i | 0 <= i < |f.queue| ensures PR.WaiterSpared(f.sys.tree, gone, f.queue[i]) {
      UnseenSpared(s, gone, f.queue[i]);
    }
  }

  lemma FallenInTree(t: Tree, n: NodeId, k: nat)
    requires WellFormed(t) && n in t.up && k <= |t.up[n]|
    ensures Nodes(t.up[n][..k]) <= t.up.Keys
  {
    forall d | d in Nodes(t.up[n][..k]) ensures d in t.up {
      var i :| 0 <= i < k && t.up[n][i] == d;
      WalkStep(t, n, i);
    }
  }

  lemma UnawaitedSeen(w: World, n: NodeId)
    requires WorldInv(w) && Unawaited(w.f, n) && n in w.r.nlookup
    ensures QueueSeen(LastLookupGone(w.r, n), w.f.queue)
  {
    forall i | 0 <= i < |w.f.queue| ensures WaiterSeen(LastLookupGone(w.r, n), w.f.queue[i]) {
      assert WaiterSeen(w.r, w.f.queue[i]) && PR.WaiterSpared(w.f.sys.tree, {n}, w.f.queue[i]);
    }
  }

  /** An operation on nodes alone deletes only what may be deleted. */
  lemma GoneDeletable(w: World, remember: bool, act: Act)
    requires WorldInv(w) && Allowed(w, remember, act) && act.OnNodes?
    ensures PR.CanDelete(w.f, Gone(w, remember, act))
  {
    LocksAreHeld(w);
    match act.op
    case Forgets(n, k) =>
      if k == w.r.nlookup[n] {
        LastDeletable(w, n);
      } else {
        NothingDeletable(w, remember, act);
      }
    case Cleans(n) =>
      if w.r.refctr[n] == 1 {
        LastDeletable(w, n);
      } else {
        NothingDeletable(w, remember, act);
      }
    case Unpins(n) =>
      UnrefEffect(w.r, {}, n);
      GoneIsFallen(w.r, n);
      FallenDeletable(w.f, w.r, n);
    case _ => NothingDeletable(w, remember, act);
  }

  lemma NothingDeletable(w: World, remember: bool, act: Act)
    requires WorldInv(w) && Allowed(w, remember, act) && RefsAfter(w, remember, act).tree.up.Keys == w.r.tree.up.Keys
    ensures Gone(w, remember, act) == {} && PR.CanDelete(w.f, {})
  {
    forall i | 0 <= i < |w.f.queue| ensures PR.WaiterSpared(w.f.sys.tree, {}, w.f.queue[i]) {
      UnseenSpared(w.r, {}, w.f.queue[i]);
    }
  }

  lemma GoneIsFallen(s: Refs, n: NodeId)
    requires RefsOk(s) && n in s.pins && n in s.tree.up
    ensures s.tree.up.Keys - Unref(s, n).tree.up.Keys == Fallen(s, n)
    ensures Unref(s, n).tree.up.Keys == s.tree.up.Keys - Fallen(s, n)
    ensures Unref(s, n).tree.link == s.tree.link - Fallen(s, n)
  {
    UnrefEffect(s, {}, n);
    FallenInTree(s.tree, n, Falls(s.refctr, s.tree.up[n]));
    assert (s.tree.up - Fallen(s, n)).Keys == s.tree.up.Keys - Fallen(s, n);
  }

  lemma LastDeletable(w: World, n: NodeId)
    requires WorldInv(w) && LocksHeld(w.r, w.f.sys.word) && Live(w.r, n) && n != ROOT && Forgettable(w.f, n)
    ensures var g := w.r.tree.up.Keys - Forget(w.r, n, w.r.nlookup[n]).tree.up.Keys;
      PR.CanDelete(w.f, g)
  {
    var s1 := LastLookupGone(w.r, n);
    LastLookupKeeps(w.r, n);
    LocksHeldUnlooked(w.r, n, w.f.sys.word);
    UnawaitedSeen(w, n);
    FallenDeletable(w.f, s1, n);
    GoneIsFallen(s1, n);
    assert Forget(w.r, n, w.r.nlookup[n]) == Unref(s1, n);
  }

  /** Whatever the kernel may ask for, the step of the path locks that goes with it is one of theirs. */
  lemma PathsReady(w: World, remember: bool, act: Act)
    requires WorldInv(w) && Allowed(w, remember, act)
    ensures PR.Enabled(w.f, StepOf(w, remember, act))
  {
    if act.OnNodes? {
      GoneDeletable(w, remember, act);
    }
  }

  // ----- both halves keep the same tree -----

  lemma SameTree(w: World, remember: bool, act: Act)
    requires WorldInv(w) && Allowed(w, remember, act)
    ensures Next(w, remember, act).f.sys.tree == Next(w, remember, act).r.tree
  {
    PathsReady(w, remember, act);
    if !act.OnPaths? {
      NodesReady(w, remember, act);
    }
    match act
    case OnPaths(step) => PathsKeepTree(w, step);
    case OnNodes(op) => NodesKeepTree(w, remember, act);
    case Finds(n, at) =>
    case Removes(h, at) => RemovedKeeps(w.r, at, remember);
    case Renames(_, _, src, dst, hiding, keeps) => RenameTreeIs(w.r, src, dst, remember, hiding, keeps);
    case Exchanges(_, _, src, dst, keepsOld, keepsNew) => ExchangeTreeIs(w.r, src, dst, keepsOld, keepsNew);
  }

  lemma PathsKeepTree(w: World, step: PR.Step)
    requires WorldInv(w) && PR.Enabled(w.f, step) && AllowedStep(w, step)
    ensures PR.Next(w.f, step).sys.tree == w.f.sys.tree
  {
    if step.FreePath? || step.FreePath2? {
      PR.ReleasedOk(w.f, step);
      WakeSettles(PR.Released(w.f, step), 0, step.mem);
    }
  }

  /** r is s without gone, as far as names and live nodes go. */
  ghost predicate Lessened(s: Refs, gone: set<NodeId>, r: Refs)
  {
    RefsOk(r) && r.tree.link == s.tree.link - gone && r.tree.up.Keys == s.tree.up.Keys - gone
  }

  lemma NodesLessen(w: World, remember: bool, act: Act)
    requires WorldInv(w) && Allowed(w, remember, act) && act.OnNodes?
    ensures Lessened(w.r, Gone(w, remember, act), RefsAfter(w, remember, act))
  {
    NR.ApplyKeeps(w.r, remember, act.op);
    match act.op
    case Forgets(n, k) =>
      if k == w.r.nlookup[n] {
        LastLessens(w.r, n);
      } else {
        NothingLessened(w, remember, act);
      }
    case Cleans(n) =>
      if w.r.refctr[n] == 1 {
        LastLessens(w.r, n);
      } else {
        NothingLessened(w, remember, act);
      }
    case Unpins(n) => UnrefLessens(w.r, n);
    case _ => NothingLessened(w, remember, act);
  }

  lemma NothingLessened(w: World, remember: bool, act: Act)
    requires WorldInv(w) && Allowed(w, remember, act) && RefsAfter(w, remember, act).tree == w.r.tree
    requires RefsOk(RefsAfter(w, remember, act))
    ensures Lessened(w.r, Gone(w, remember, act), RefsAfter(w, remember, act))
  {
    assert Gone(w, remember, act) == {};
    assert w.r.tree.link - {} == w.r.tree.link;
  }

  lemma LastLessens(s: Refs, n: NodeId)
    requires RefsOk(s) && Live(s, n) && n != ROOT
    ensures var r := Forget(s, n, s.nlookup[n]); Lessened(s, s.tree.up.Keys - r.tree.up.Keys, r) == true
  {
    var s1 := LastLookupGone(s, n);
    LastLookupKeeps(s, n);
    UnrefLessens(s1, n);
    LastForget(s, n);
    var r := Unref(s1, n);
    SameTreeLessened(s, s1, s.tree.up.Keys - r.tree.up.Keys, r);
  }

  lemma LastForget(s: Refs, n: NodeId)
    requires RefsOk(s) && n in s.nlookup && n in s.tree.up && s.nlookup[n] > 0
    ensures Forget(s, n, s.nlookup[n]) == Unref(LastLookupGone(s, n), n)
  {
    var left := s.nlookup[n := s.nlookup[n] - s.nlookup[n]];
    assert s.(nlookup := left).(pins := s.pins + multiset{n}) == LastLookupGone(s, n);
  }

  lemma SameTreeLessened(s: Refs, s1: Refs, gone: set<NodeId>, r: Refs)
    requires s1.tree == s.tree && Lessened(s1, gone, r) == true
    ensures Lessened(s, gone, r) == true
  {
  }

  lemma UnrefLessens(s: Refs, n: NodeId)
    requires RefsOk(s) && n in s.pins && n in s.tree.up
    ensures WellFormed(s.tree) && s.refctr.Keys == s.tree.up.Keys
    ensures Lessened(s, s.tree.up.Keys - Unref(s, n).tree.up.Keys, Unref(s, n)) == true
  {
    UnrefEffect(s, {}, n);
    GoneIsFallen(s, n);
  }

  lemma NodesKeepTree(w: World, remember: bool, act: Act)
    requires WorldInv(w) && Allowed(w, remember, act) && act.OnNodes?
    ensures DeleteTree(w.r.tree, Gone(w, remember, act)) == RefsAfter(w, remember, act).tree
  {
    GoneDeletable(w, remember, act);
    NodesLessen(w, remember, act);
    var gone := Gone(w, remember, act);
    DeleteWellFormed(w.r.tree, gone);
    assert DeleteTree(w.r.tree, gone).up.Keys == w.r.tree.up.Keys - gone;
    TreesDetermined(DeleteTree(w.r.tree, gone), RefsAfter(w, remember, act).tree);
  }

  // ----- the nodes in use stay looked up -----

  /** Granted or not, an attempt only locks nodes that are looked up. */
  lemma AttemptSeen(f: Fuse, r: Refs, req: Request, memory: Memory)
    requires FuseOk(f) && f.sys.tree == r.tree && RequestSeen(r, req, false) && RequestOk(r.tree, req)
    requires HoldsSeen(r, f.sys.holds)
    ensures HoldsSeen(r, Take(f.sys, f.next, TryRequest(f.sys.tree, f.sys.word, req, memory)).holds)
  {
    RequestAllOrNothing(f.sys.tree, f.sys.word, req, memory);
    var a := TryRequest(f.sys.tree, f.sys.word, req, memory);
    forall i | 0 <= i < |a.holds| ensures HoldSeen(r, a.holds[i]) {
    }
    TakenSeen(f.sys, f.next, a, r);
  }

  lemma TakenSeen(s: Sys, next: HoldId, a: Attempt, r: Refs)
    requires HoldsSeen(r, s.holds) && forall i :: 0 <= i < |a.holds| ==> HoldSeen(r, a.holds[i])
    ensures HoldsSeen(r, Take(s, next, a).holds)
  {
  }

  lemma WakeOneSeen(f: Fuse, r: Refs, i: nat, memory: Memory)
    requires FuseOk(f) && f.sys.tree == r.tree && i < |f.queue| && HoldsSeen(r, f.sys.holds) && QueueSeen(r, f.queue)
    ensures HoldsSeen(r, WakeOne(f, i, memory).sys.holds) && QueueSeen(r, WakeOne(f, i, memory).queue)
  {
    assert WaiterSeen(r, f.queue[i]) && WaiterOk(f.sys.tree, f.queue[i]);
    if f.queue[i].PathWaiter? && !f.queue[i].done {
      AttemptSeen(f, r, f.queue[i].req, memory);
    }
  }

  lemma {:induction false} WakeSeen(f: Fuse, r: Refs, i: nat, mem: seq<Memory>)
    requires FuseOk(f) && f.sys.tree == r.tree && i <= |f.queue| && |f.sys.holds| + 2 * (|f.queue| - i) < INT_MAX
    requires HoldsSeen(r, f.sys.holds) && QueueSeen(r, f.queue)
    ensures HoldsSeen(r, WakeFrom(f, i, mem).sys.holds) && QueueSeen(r, WakeFrom(f, i, mem).queue)
    decreases |f.queue| - i
  {
    if i < |f.queue| {
      WakeOneKeepsOk(f, i, MemoryAt(mem, i));
      WakeOneSeen(f, r, i, MemoryAt(mem, i));
      WakeSeen(WakeOne(f, i, MemoryAt(mem, i)), r, i + 1, mem);
    }
  }

  lemma PathsSeen(w: World, step: PR.Step)
    requires WorldInv(w) && PR.Enabled(w.f, step) && AllowedStep(w, step)
    ensures HoldsSeen(w.r, PR.Next(w.f, step).sys.holds) && QueueSeen(w.r, PR.Next(w.f, step).queue)
  {
    match step
    case GetPath(req, memory) => AttemptSeen(w.f, w.r, req, memory);
    case FreePath(_, mem) => FreeSeen(w, step);
    case FreePath2(_, _, mem) => FreeSeen(w, step);
    case Leave(i) =>
    case AwaitForget(node) =>
    case SleepAgain(i) =>
      assert WaiterSeen(w.r, w.f.queue[i]);
  }

  lemma FreeSeen(w: World, step: PR.Step)
    requires WorldInv(w) && PR.Enabled(w.f, step) && (step.FreePath? || step.FreePath2?)
    ensures HoldsSeen(w.r, PR.Next(w.f, step).sys.holds) && QueueSeen(w.r, PR.Next(w.f, step).queue)
  {
    var g := PR.Released(w.f, step);
    PR.ReleasedOk(w.f, step);
    forall h | h in g.sys.holds ensures HoldSeen(w.r, g.sys.holds[h]) {
      assert HoldSeen(w.r, w.f.sys.holds[h]);
    }
    WakeSeen(g, w.r, 0, step.mem);
  }

  /**
    From s to r only the nodes in lost may have lost their last lookup, and
    only those in moved, which are looked up, have a name they did not have.
   */
  ghost predicate StaysSeen(s: Refs, r: Refs, lost: set<NodeId>, moved: set<NodeId>)
  {
    && RefsOk(s) && RefsOk(r)
    && (forall d {:trigger Live(r, d)} :: Live(s, d) && d !in lost ==> Live(r, d))
    && (forall x {:trigger r.tree.link[x]} :: x in r.tree.link ==>
          (x in moved && Live(r, x)) || (x in s.tree.link && s.tree.link[x] == r.tree.link[x]))
  }

  lemma LegStaysSeen(s: Refs, r: Refs, lost: set<NodeId>, moved: set<NodeId>, leg: Leg, done: bool)
    requires StaysSeen(s, r, lost, moved) && LegSeen(s, leg, done) && PR.LegSpared(s.tree, lost, leg, done)
    ensures LegSeen(r, leg, done)
  {
    assert Live(r, leg.node);
    if Target(r.tree, leg).Some? {
      var x, k := Target(r.tree, leg).value, Link(leg.node, leg.name.value);
      assert EntryOk(r.tree, k);
      if x in s.tree.link && s.tree.link[x] == r.tree.link[x] {
        assert NodeOk(s.tree, x);
      }
    }
  }

  lemma QueueStaysSeen(s: Refs, r: Refs, lost: set<NodeId>, moved: set<NodeId>, queue: seq<Waiter>)
    requires StaysSeen(s, r, lost, moved) && QueueSeen(s, queue)
    requires forall i {:trigger queue[i]} :: 0 <= i < |queue| ==> PR.WaiterSpared(s.tree, lost, queue[i])
    ensures QueueSeen(r, queue)
  {
    forall i | 0 <= i < |queue| ensures WaiterSeen(r, queue[i]) {
      assert WaiterSeen(s, queue[i]) && PR.WaiterSpared(s.tree, lost, queue[i]);
      match queue[i]
      case ForgetWaiter(node, _) => assert Live(r, node);
      case PathWaiter(One(leg), done, _, _) => LegStaysSeen(s, r, lost, moved, leg, done);
      case PathWaiter(Two(leg1, leg2), done, _, _) =>
        LegStaysSeen(s, r, lost, moved, leg1, done);
        LegStaysSeen(s, r, lost, moved, leg2, done);
    }
  }

  /** The node that loses its last lookup, if one does. */
  ghost function LostBy(r: Refs, act: Act): set<NodeId>
  {
    if !act.OnNodes? then {}
    else
      match act.op
      case Forgets(n, k) => if n in r.nlookup && r.nlookup[n] == k then {n} else {}
      case Cleans(n) => if n in r.refctr && r.refctr[n] == 1 then {n} else {}
      case _ => {}
  }

  lemma LastStaysSeen(s: Refs, n: NodeId)
    requires RefsOk(s) && Live(s, n) && n != ROOT
    ensures StaysSeen(s, Forget(s, n, s.nlookup[n]), {n}, {})
  {
    var r := Forget(s, n, s.nlookup[n]);
    ForgetLast(s, n);
    var g := Fallen(LastLookupGone(s, n), n);
    forall d | Live(s, d) && d != n ensures Live(r, d) {
      assert d !in g;
    }
    forall x | x in r.tree.link ensures x in s.tree.link && s.tree.link[x] == r.tree.link[x] {
    }
  }

  lemma UnpinStaysSeen(s: Refs, n: NodeId)
    requires RefsOk(s) && n in s.pins && n in s.tree.up
    ensures StaysSeen(s, Unref(s, n), {}, {})
  {
    var r := Unref(s, n);
    UnrefEffect(s, {}, n);
    forall d | Live(s, d) ensures Live(r, d) {
      assert d !in Fallen(s, n);
    }
  }

  lemma NodesStaySeen(w: World, remember: bool, act: Act)
    requires WorldInv(w) && Allowed(w, remember, act) && act.OnNodes?
    ensures StaysSeen(w.r, RefsAfter(w, remember, act), LostBy(w.r, act), {})
  {
    NR.ApplyKeeps(w.r, remember, act.op);
    match act.op
    case Forgets(n, k) =>
      if k == w.r.nlookup[n] {
        LastStaysSeen(w.r, n);
      }
    case Cleans(n) =>
      if w.r.refctr[n] == 1 {
        LastStaysSeen(w.r, n);
      }
    case Unpins(n) => UnpinStaysSeen(w.r, n);
    case _ =>
  }

  /** The nodes that get a name. */
  function MovedBy(r: Refs, act: Act): set<NodeId>
  {
    match act
    case Finds(n, _) => {n}
    case Renames(_, _, src, _, _, _) => Holder(r, src)
    case Exchanges(_, _, src, dst, _, _) => Holder(r, src) + Holder(r, dst)
    case _ => {}
  }

  lemma TargetSeen(w: World, h: HoldId, at: Link)
    requires WorldInv(w) && PR.WritesAt(w.f.sys, h, at) && at in w.r.tree.index
    ensures Live(w.r, w.r.tree.index[at])
  {
    assert HoldSeen(w.r, w.f.sys.holds[h]);
  }

  lemma SameStaysSeen(s: Refs, moved: set<NodeId>)
    requires RefsOk(s)
    ensures StaysSeen(s, s, {}, moved)
  {
  }

  lemma FindStaysSeen(s: Refs, n: NodeId, at: Link, lookups: nat)
    requires RefsOk(s) && n !in s.tree.up && at.parent in s.tree.up && at !in s.tree.index && lookups > 0
    ensures StaysSeen(s, Created(s, n, at, lookups), {}, {n})
  {
    CreatedKeeps(s, n, at, lookups);
  }

  lemma RemoveStaysSeen(s: Refs, at: Link, remember: bool)
    requires CanRemove(s, at, remember)
    ensures StaysSeen(s, Removed(s, at, remember), {}, {})
  {
    RemovedKeeps(s, at, remember);
  }

  lemma RenameStaysSeen(s: Refs, src: Link, dst: Link, remember: bool, keeps: bool, r: Refs)
    requires RefsOk(s) && src in s.tree.index && RenameDone(s, src, dst, remember, keeps, r)
    requires Live(s, s.tree.index[src])
    ensures StaysSeen(s, r, {}, Holder(s, src))
  {
    forall d | Live(s, d) ensures Live(r, d) {
      assert d in r.tree.up.Keys;
    }
  }

  lemma ExchangeStaysSeen(s: Refs, src: Link, dst: Link, j: nat, r: Refs)
    requires RefsOk(s) && Exchanged(s, src, dst, j, r)
    requires forall x :: x in Holder(s, src) + Holder(s, dst) ==> Live(s, x)
    ensures StaysSeen(s, r, {}, Holder(s, src) + Holder(s, dst))
  {
    forall d | Live(s, d) ensures Live(r, d) {
      assert d in r.tree.up.Keys;
    }
  }

  lemma NamesStaySeen(w: World, remember: bool, act: Act)
    requires WorldInv(w) && Allowed(w, remember, act) && (act.Renames? || act.Exchanges?)
    ensures StaysSeen(w.r, RefsAfter(w, remember, act), {}, MovedBy(w.r, act))
  {
    NodesReady(w, remember, act);
    var s := w.r;
    match act
    case Renames(h, _, src, dst, hiding, keeps) =>
      if src in s.tree.index && !(dst in s.tree.index && hiding) {
        TargetSeen(w, h, src);
        MovedIs(s, src, dst, remember, keeps);
        RenameStaysSeen(s, src, dst, remember, keeps, Moved(s, src, dst, remember, keeps));
      } else {
        SameStaysSeen(s, MovedBy(s, act));
      }
    case Exchanges(h, under, src, dst, keepsOld, keepsNew) =>
      HoldersSeen(w, h, under, src, dst);
      ExchangedIs(s, src, dst, keepsOld, keepsNew);
      ExchangeStaysSeen(s, src, dst, ExchangeSteps(s, src, dst, keepsOld, keepsNew),
                        ExchangedFor(s, src, dst, keepsOld, keepsNew));
  }

  lemma HoldersSeen(w: World, h: HoldId, under: HoldId, src: Link, dst: Link)
    requires WorldInv(w) && PR.WritesAt(w.f.sys, h, src) && PR.WritesAt(w.f.sys, under, dst)
    ensures forall x :: x in Holder(w.r, src) + Holder(w.r, dst) ==> Live(w.r, x)
  {
    if src in w.r.tree.index {
      TargetSeen(w, h, src);
    }
    if dst in w.r.tree.index {
      TargetSeen(w, under, dst);
    }
  }

  lemma AllStaySeen(w: World, remember: bool, act: Act)
    requires WorldInv(w) && Allowed(w, remember, act) && !act.OnPaths?
    ensures StaysSeen(w.r, RefsAfter(w, remember, act), LostBy(w.r, act), MovedBy(w.r, act))
  {
    NodesReady(w, remember, act);
    match act
    case OnNodes(op) => NodesStaySeen(w, remember, act);
    case Finds(n, at) => FindStaysSeen(w.r, n, at, if remember then 2 else 1);
    case Removes(h, at) => RemoveStaysSeen(w.r, at, remember);
    case Renames(_, _, _, _, _, _) => NamesStaySeen(w, remember, act);
    case Exchanges(_, _, _, _, _, _) => NamesStaySeen(w, remember, act);
  }

  /** No path that is locked, and nobody who waits, names the node that loses its last lookup. */
  lemma LostUnused(w: World, remember: bool, act: Act)
    requires WorldInv(w) && Allowed(w, remember, act)
    ensures forall i {:trigger w.f.queue[i]} :: 0 <= i < |w.f.queue| ==>
              PR.WaiterSpared(w.f.sys.tree, LostBy(w.r, act), w.f.queue[i])
    ensures forall h {:trigger w.f.sys.holds[h]} :: h in w.f.sys.holds ==>
              && w.f.sys.holds[h].node !in LostBy(w.r, act)
              && (w.f.sys.holds[h].writes.Some? ==> w.f.sys.holds[h].writes.value !in LostBy(w.r, act))
  {
    var lost := LostBy(w.r, act);
    forall i | 0 <= i < |w.f.queue| ensures PR.WaiterSpared(w.f.sys.tree, lost, w.f.queue[i]) {
      if lost == {} {
        UnseenSpared(w.r, lost, w.f.queue[i]);
      }
    }
    forall h | h in w.f.sys.holds
      ensures w.f.sys.holds[h].node !in lost
      ensures w.f.sys.holds[h].writes.Some? ==> w.f.sys.holds[h].writes.value !in lost
    {
      PR.HoldSpared(w.f.sys, lost, h);
    }
  }

  lemma NextSeen(w: World, remember: bool, act: Act)
    requires WorldInv(w) && Allowed(w, remember, act)
    ensures var w' := Next(w, remember, act); HoldsSeen(w'.r, w'.f.sys.holds) && QueueSeen(w'.r, w'.f.queue)
  {
    PathsReady(w, remember, act);
    if act.OnPaths? {
      PathsSeen(w, act.step);
    } else {
      var w' := Next(w, remember, act);
      AllStaySeen(w, remember, act);
      LostUnused(w, remember, act);
      QueueStaysSeen(w.r, w'.r, LostBy(w.r, act), MovedBy(w.r, act), w.f.queue);
      forall h | h in w'.f.sys.holds ensures HoldSeen(w'.r, w'.f.sys.holds[h]) {
        assert HoldSeen(w.r, w.f.sys.holds[h]);
      }
    }
  }

  // ----- runs -----

  /** Every act keeps the locks exact, the counts exact, the tree shared, and the nodes in use looked up. */
  lemma NextKeepsWorld(w: World, remember: bool, act: Act)
    requires WorldInv(w) && Allowed(w, remember, act)
    ensures WorldInv(Next(w, remember, act))
  {
    PathsReady(w, remember, act);
    PR.NextKeepsInv(w.f, StepOf(w, remember, act));
    if !act.OnPaths? {
      NodesReady(w, remember, act);
      NR.ApplyKeeps(w.r, remember, OpOf(act));
    }
    SameTree(w, remember, act);
    NextSeen(w, remember, act);
  }

  /** fuse_new: the root, looked up once, and nothing locked. */
  ghost predicate Initial(w: World)
  {
    w == World(PR.INITIAL, NI.InitialState())
  }

  ghost predicate Leads(w: World, remember: bool, act: Act, w': World)
  {
    WorldInv(w) ==> Allowed(w, remember, act) && w' == Next(w, remember, act)
  }

  ghost predicate Run(trace: seq<World>, remember: bool, acts: seq<Act>)
  {
    && |trace| == |acts| + 1 && Initial(trace[0])
    && forall i {:trigger acts[i]} :: 0 <= i < |acts| ==> Leads(trace[i], remember, acts[i], trace[i + 1])
  }

  lemma {:induction false} RunKeepsWorld(trace: seq<World>, remember: bool, acts: seq<Act>, i: nat)
    requires Run(trace, remember, acts) && i < |trace|
    ensures WorldInv(trace[i])
  {
    if i == 0 {
      NR.InitialOk();
      PR.InitialInv();
    } else {
      RunKeepsWorld(trace, remember, acts, i - 1);
      assert Leads(trace[i - 1], remember, acts[i - 1], trace[i]);
      NextKeepsWorld(trace[i - 1], remember, acts[i - 1]);
    }
  }

  /** The lock word of d is 0, no locked path leads through d or writes it, and nobody waits for it. */
  ghost predicate Unused(f: Fuse, d: NodeId)
  {
    && d in f.sys.word && f.sys.word[d] == 0 && Readers(f.sys, d) == {} && Writers(f.sys, d) == {}
    && forall k {:trigger f.queue[k]} :: 0 <= k < |f.queue| ==> PR.WaiterSpared(f.sys.tree, {d}, f.queue[k])
  }

  /** Only the operations that give references back delete nodes. */
  lemma DeletesAlone(w: World, remember: bool, act: Act)
    requires WorldInv(w) && Allowed(w, remember, act) && Gone(w, remember, act) != {}
    ensures act.OnNodes? && PR.CanDelete(w.f, Gone(w, remember, act))
  {
    PathsReady(w, remember, act);
    if act.OnNodes? {
      GoneDeletable(w, remember, act);
    } else {
      SameTree(w, remember, act);
      PR.KeysStay(w.f, StepOf(w, remember, act));
    }
  }

  lemma DeletableUnused(f: Fuse, gone: set<NodeId>, d: NodeId)
    requires Inv(f) && PR.CanDelete(f, gone) && d in gone
    ensures Unused(f, d)
  {
    assert NodeWordOk(f.sys, d);
    forall k | 0 <= k < |f.queue| ensures PR.WaiterSpared(f.sys.tree, {d}, f.queue[k]) {
      assert PR.WaiterSpared(f.sys.tree, gone, f.queue[k]);
    }
  }

  lemma DeletedUnused(w: World, remember: bool, act: Act, d: NodeId)
    requires WorldInv(w) && Allowed(w, remember, act)
    requires d in w.r.tree.up && d !in Next(w, remember, act).r.tree.up
    ensures Unused(w.f, d)
  {
    assert d in Gone(w, remember, act);
    DeletesAlone(w, remember, act);
    DeletableUnused(w.f, Gone(w, remember, act), d);
  }

  /**
    The assert of delete_node holds in every run: whatever an act deletes is
    not locked, and nobody is left that could come across the freed node.
   */
  lemma DeletedUnlocked(trace: seq<World>, remember: bool, acts: seq<Act>, i: nat, d: NodeId)
    requires Run(trace, remember, acts) && i < |acts|
    requires d in trace[i].r.tree.up && d !in trace[i + 1].r.tree.up
    ensures Unused(trace[i].f, d)
  {
    RunKeepsWorld(trace, remember, acts, i);
    assert Leads(trace[i], remember, acts[i], trace[i + 1]);
    DeletedUnused(trace[i], remember, acts[i], d);
  }
}
