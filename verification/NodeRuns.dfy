/**
  Runs of the node index: whatever sequence of operations is made on it, the
  counts stay exact, names and nodes stay one to one, every lookup is counted
  until it is given back, and no pair of generation and id is handed out twice.
 */
module NodeRuns {
  import opened PathTree
  import opened NodeRefs
  import opened NodeMoves
  import NI = NodeIndex

  /** Wastes: find_node for a new name, when there is no memory to keep the name; an id is used up. */
  datatype Op =
    | Known(n: NodeId)
    | New(n: NodeId, at: Link)
    | Wastes
    | Forgets(n: NodeId, k: nat)
    | Cleans(n: NodeId)
    | Pins(n: NodeId)
    | Unpins(n: NodeId)
    | Removes(at: Link)
    | Renames(src: Link, dst: Link, hiding: bool, keeps: bool)
    | Exchanges(src: Link, dst: Link, keepsOld: bool, keepsNew: bool)

  /** What the operations take for granted, in an index that remembers nodes or does not. */
  ghost predicate Enabled(s: Refs, remember: bool, op: Op)
  {
    match op
    case Known(n) => n in s.tree.up
    case New(n, at) => n !in s.tree.up && at.parent in s.tree.up && at !in s.tree.index
    case Wastes => true
    case Forgets(n, k) => n != ROOT && Live(s, n) && k <= s.nlookup[n]
    case Cleans(n) => remember && n != ROOT && Live(s, n) && s.nlookup[n] == 1
    case Pins(n) => n in s.tree.up
    case Unpins(n) => n in s.pins
    case Removes(at) => CanRemove(s, at, remember)
    case Renames(src, dst, hiding, _) => CanRename(s, src, dst, remember, hiding)
    case Exchanges(src, dst, _, _) => CanExchange(s, src, dst)
  }

  /** The index after op. A node with other references than the cache's is left alone by the cleaning. */
  ghost function Apply(s: Refs, remember: bool, op: Op): Refs
    requires RefsOk(s) && Enabled(s, remember, op)
  {
    match op
    case Known(n) => IncLookup(s, n)
    case New(n, at) => Created(s, n, at, if remember then 2 else 1)
    case Wastes => s
    case Forgets(n, k) => Forget(s, n, k)
    case Cleans(n) => if s.refctr[n] == 1 then Forget(s, n, 1) else s
    case Pins(n) => Pinned(s, n)
    case Unpins(n) => Unref(s, n)
    case Removes(at) => Removed(s, at, remember)
    case Renames(src, dst, hiding, keeps) => RenamedTo(s, src, dst, remember, hiding, keeps)
    case Exchanges(src, dst, keepsOld, keepsNew) => ExchangedFor(s, src, dst, keepsOld, keepsNew)
  }

  /** Every operation keeps every count exact and positive, and names and nodes one to one. */
  lemma ApplyKeeps(s: Refs, remember: bool, op: Op)
    requires RefsOk(s) && Enabled(s, remember, op)
    ensures RefsOk(Apply(s, remember, op))
  {
    match op
    case Known(n) => IncLookupKeeps(s, n);
    case New(n, at) => CreatedKeeps(s, n, at, if remember then 2 else 1);
    case Wastes =>
    case Forgets(n, k) => ForgetKeeps(s, n, k);
    case Cleans(n) => ForgetKeeps(s, n, 1);
    case Pins(n) => PinKeeps(s, n);
    case Unpins(n) => UnrefEffect(s, {}, n);
    case Removes(at) => RemovedKeeps(s, at, remember);
    case Renames(src, dst, hiding, keeps) =>
      if src in s.tree.index && !(dst in s.tree.index && hiding) {
        MovedIs(s, src, dst, remember, keeps);
      }
    case Exchanges(src, dst, keepsOld, keepsNew) => ExchangedIs(s, src, dst, keepsOld, keepsNew);
  }

  lemma ForgetKeeps(s: Refs, n: NodeId, k: nat)
    requires RefsOk(s) && n != ROOT && Live(s, n) && k <= s.nlookup[n]
    ensures RefsOk(Forget(s, n, k))
  {
    if k < s.nlookup[n] {
      ForgetSome(s, n, k);
    } else {
      ForgetLast(s, n);
    }
  }

  // ----- runs -----

  /** The index together with the counter that ids come from. */
  datatype Index = Index(refs: Refs, generation: nat, ctr: nat)

  /** op leads from x to x'; only find_node for a new name moves the counter, and the new node gets its value as id. */
  ghost predicate Leads(x: Index, remember: bool, op: Op, x': Index)
  {
    RefsOk(x.refs) ==>
      && Enabled(x.refs, remember, op) && x'.refs == Apply(x.refs, remember, op)
      && (op.New? ==> op.n == x'.ctr)
      && if op.New? || op.Wastes? then NI.NextAfter(x.refs.tree.up, x.generation, x.ctr, x'.generation, x'.ctr)
         else x'.generation == x.generation && x'.ctr == x.ctr
  }

  ghost predicate IsRun(states: seq<Index>, remember: bool, ops: seq<Op>)
  {
    && |states| == |ops| + 1 && states[0] == Index(NI.InitialState(), 0, 0)
    && forall i {:trigger ops[i]} :: 0 <= i < |ops| ==> Leads(states[i], remember, ops[i], states[i + 1])
  }

  /**
    Reference conservation over whole runs: each count is children, plus the kernel if it looks,
    plus pins; and positive.
   */
  lemma {:induction false} RunKeepsRefs(states: seq<Index>, remember: bool, ops: seq<Op>, i: nat)
    requires IsRun(states, remember, ops) && i < |states|
    ensures RefsOk(states[i].refs)
  {
    if i == 0 {
      InitialOk();
    } else {
      RunKeepsRefs(states, remember, ops, i - 1);
      assert Leads(states[i - 1], remember, ops[i - 1], states[i]);
      ApplyKeeps(states[i - 1].refs, remember, ops[i - 1]);
    }
  }

  lemma InitialOk()
    ensures RefsOk(NI.InitialState())
  {
    var s := NI.InitialState();
    assert NodeOk(s.tree, ROOT);
    assert Children(s.tree, ROOT) == {};
    assert CountOk(s, ROOT);
  }

  /**
    In every reachable state a live node has exactly the references it should have, and no two
    nodes share a name in one directory.
   */
  lemma ReachableFacts(states: seq<Index>, remember: bool, ops: seq<Op>, i: nat, m: NodeId, n: NodeId)
    requires IsRun(states, remember, ops) && i < |states|
    ensures var s := states[i].refs;
      n in s.tree.up ==>
        && n in s.refctr && n in s.nlookup
        && s.refctr[n] == |Children(s.tree, n)| + LookupRef(s, n) + s.pins[n] && s.refctr[n] > 0
    ensures var s := states[i].refs;
      m in s.tree.link && n in s.tree.link && s.tree.link[m] == s.tree.link[n] ==> m == n
  {
    RunKeepsRefs(states, remember, ops, i);
    var s := states[i].refs;
    if n in s.tree.up {
      assert CountOk(s, n);
    }
    if m in s.tree.link && n in s.tree.link {
      assert NodeOk(s.tree, m) && NodeOk(s.tree, n);
    }
  }

  lemma OneCount(states: seq<Index>, remember: bool, ops: seq<Op>, i: nat)
    requires IsRun(states, remember, ops) && i < |ops|
    ensures NI.Ticks(states[i].generation, states[i].ctr) <= NI.Ticks(states[i + 1].generation, states[i + 1].ctr)
  {
    RunKeepsRefs(states, remember, ops, i);
    assert Leads(states[i], remember, ops[i], states[i + 1]);
  }

  lemma {:induction false} CountsOn(states: seq<Index>, remember: bool, ops: seq<Op>, i: nat, j: nat)
    requires IsRun(states, remember, ops) && i <= j < |states|
    ensures NI.Ticks(states[i].generation, states[i].ctr) <= NI.Ticks(states[j].generation, states[j].ctr)
    decreases j
  {
    if i < j {
      CountsOn(states, remember, ops, i, j - 1);
      OneCount(states, remember, ops, j - 1);
    }
  }

  /** Ids may come back, but never with the same generation: no two new nodes of a run get the same pair. */
  lemma PairsNeverRepeat(states: seq<Index>, remember: bool, ops: seq<Op>, i: nat, j: nat)
    requires IsRun(states, remember, ops) && i < j < |ops| && ops[i].New? && ops[j].New?
    ensures (states[i + 1].generation, ops[i].n) != (states[j + 1].generation, ops[j].n)
    ensures states[i + 1].generation <= states[j + 1].generation
  {
    RunKeepsRefs(states, remember, ops, i);
    RunKeepsRefs(states, remember, ops, j);
    CountsOn(states, remember, ops, i + 1, j);
    assert Leads(states[i], remember, ops[i], states[i + 1]);
    assert Leads(states[j], remember, ops[j], states[j + 1]);
  }

  // ----- every lookup is counted -----

  /** The lookups of n that find_node has answered to the kernel since n was made, less those it has given back. */
  function KernelLookups(ops: seq<Op>, n: NodeId, i: nat): int
    requires i <= |ops|
  {
    if i == 0 then (if n == ROOT then 1 else 0)
    else
      var before := KernelLookups(ops, n, i - 1);
      match ops[i - 1]
      case Known(m) => if m == n then before + 1 else before
      case New(m, _) => if m == n then 1 else before
      case Forgets(m, k) => if m == n then before - k else before
      case _ => before
  }

  /** op unlinks n, or replaces it. */
  predicate Unlinks(s: Refs, op: Op, n: NodeId)
  {
    match op
    case Removes(at) => at in s.tree.index && s.tree.index[at] == n
    case Renames(src, dst, hiding, _) =>
      src in s.tree.index && dst in s.tree.index && !hiding && s.tree.index[dst] == n
    case _ => false
  }

  /** The lookup that a cache that remembers nodes takes when n is made, and gives back when n is unlinked. */
  function CacheLookups(states: seq<Index>, remember: bool, ops: seq<Op>, n: NodeId, i: nat): int
    requires |states| == |ops| + 1 && i <= |ops|
  {
    if i == 0 || !remember then 0
    else
      var before := CacheLookups(states, remember, ops, n, i - 1);
      if ops[i - 1].New? && ops[i - 1].n == n then 1
      else if Unlinks(states[i - 1].refs, ops[i - 1], n) then before - 1
      else before
  }

  /** What an operation does to the lookups of a node that was there before and stays. */
  function Change(s: Refs, remember: bool, op: Op, n: NodeId): int
  {
    match op
    case Known(m) => if m == n then 1 else 0
    case Forgets(m, k) => if m == n then 0 - k else 0
    case _ => if remember && Unlinks(s, op, n) then -1 else 0
  }

  ghost predicate Counted(s: Refs, n: NodeId, change: int, s': Refs)
  {
    n in s.nlookup && n in s'.nlookup && s'.nlookup[n] == s.nlookup[n] + change
  }

  lemma LookupsAfter(s: Refs, remember: bool, op: Op, n: NodeId)
    requires RefsOk(s) && Enabled(s, remember, op) && n in Apply(s, remember, op).tree.up && !(op.New? && op.n == n)
    ensures n in s.tree.up && Counted(s, n, Change(s, remember, op, n), Apply(s, remember, op))
  {
    assert s.nlookup.Keys == s.tree.up.Keys;
    match op
    case Forgets(m, k) => ForgottenLookups(s, m, k, n);
    case Cleans(m) => CleanedLookups(s, m, n);
    case Unpins(m) => UnrefEffect(s, {}, m);
    case Removes(at) => RemovedLookups(s, remember, at, n);
    case Renames(src, dst, hiding, keeps) => RenamedLookups(s, remember, src, dst, hiding, keeps, n);
    case Exchanges(src, dst, keepsOld, keepsNew) => ExchangedLookups(s, src, dst, keepsOld, keepsNew, n);
    case _ =>
  }

  lemma RemovedLookups(s: Refs, remember: bool, at: Link, n: NodeId)
    requires CanRemove(s, at, remember) && n in Removed(s, at, remember).tree.up
    ensures n in s.tree.up && Counted(s, n, Change(s, remember, Op.Removes(at), n), Removed(s, at, remember))
  {
    RemovedKeeps(s, at, remember);
    assert s.nlookup.Keys == s.tree.up.Keys;
  }

  lemma RenamedLookups(s: Refs, remember: bool, src: Link, dst: Link, hiding: bool, keeps: bool, n: NodeId)
    requires CanRename(s, src, dst, remember, hiding)
    requires n in RenamedTo(s, src, dst, remember, hiding, keeps).tree.up
    ensures n in s.tree.up
    ensures Counted(s, n, Change(s, remember, Op.Renames(src, dst, hiding, keeps), n),
                    RenamedTo(s, src, dst, remember, hiding, keeps))
  {
    if src in s.tree.index && !(dst in s.tree.index && hiding) {
      MovedIs(s, src, dst, remember, keeps);
      MovedLookups(s, remember, src, dst, keeps, Moved(s, src, dst, remember, keeps), n);
    } else {
      assert s.nlookup.Keys == s.tree.up.Keys;
    }
  }

  lemma MovedLookups(s: Refs, remember: bool, src: Link, dst: Link, keeps: bool, s': Refs, n: NodeId)
    requires RefsOk(s) && n in s'.tree.up
    requires RenameDone(s, src, dst, remember, keeps, s') == true && CanUnlink(s, dst, remember)
    ensures n in s.tree.up
    ensures Counted(s, n, if remember && dst in s.tree.index && s.tree.index[dst] == n then -1 else 0, s')
  {
    assert s.nlookup.Keys == s.tree.up.Keys;
    if dst in s.tree.index {
      EntryNode(s, dst);
    }
  }

  lemma ExchangedLookups(s: Refs, src: Link, dst: Link, keepsOld: bool, keepsNew: bool, n: NodeId)
    requires CanExchange(s, src, dst) && n in ExchangedFor(s, src, dst, keepsOld, keepsNew).tree.up
    ensures n in s.tree.up && Counted(s, n, 0, ExchangedFor(s, src, dst, keepsOld, keepsNew))
  {
    ExchangedIs(s, src, dst, keepsOld, keepsNew);
    assert s.nlookup.Keys == s.tree.up.Keys;
  }

  lemma ForgottenLookups(s: Refs, n: NodeId, k: nat, m: NodeId)
    requires RefsOk(s) && n != ROOT && Live(s, n) && k <= s.nlookup[n] && m in Forget(s, n, k).tree.up
    ensures m in s.tree.up && Counted(s, m, if m == n then 0 - k else 0, Forget(s, n, k))
  {
    assert s.nlookup.Keys == s.tree.up.Keys;
    if k < s.nlookup[n] {
      ForgetSome(s, n, k);
    } else {
      ForgetLast(s, n);
    }
  }

  lemma CleanedLookups(s: Refs, n: NodeId, m: NodeId)
    requires RefsOk(s) && n != ROOT && Live(s, n) && s.nlookup[n] == 1 && n in s.refctr
    requires m in (if s.refctr[n] == 1 then Forget(s, n, 1) else s).tree.up
    ensures m in s.tree.up && Counted(s, m, 0, if s.refctr[n] == 1 then Forget(s, n, 1) else s)
  {
    assert s.nlookup.Keys == s.tree.up.Keys;
    if s.refctr[n] == 1 {
      ForgetLast(s, n);
    }
  }

  /**
    In every run the lookups of a node are what the kernel was answered for it
    and has not given back, and the cache's own while the node is linked.
   */
  lemma {:induction false} LookupsAreCounted(states: seq<Index>, remember: bool, ops: seq<Op>, i: nat, n: NodeId)
    requires IsRun(states, remember, ops) && i < |states| && n in states[i].refs.tree.up
    ensures n in states[i].refs.nlookup
    ensures states[i].refs.nlookup[n] == KernelLookups(ops, n, i) + CacheLookups(states, remember, ops, n, i)
  {
    if i > 0 {
      StepOfRun(states, remember, ops, i - 1);
      if !(ops[i - 1].New? && ops[i - 1].n == n) {
        LookupsAfter(states[i - 1].refs, remember, ops[i - 1], n);
        LookupsAreCounted(states, remember, ops, i - 1, n);
      }
    }
  }

  lemma StepOfRun(states: seq<Index>, remember: bool, ops: seq<Op>, i: nat)
    requires IsRun(states, remember, ops) && i < |ops|
    ensures RefsOk(states[i].refs) && Enabled(states[i].refs, remember, ops[i])
    ensures states[i + 1].refs == Apply(states[i].refs, remember, ops[i])
  {
    RunKeepsRefs(states, remember, ops, i);
    assert Leads(states[i], remember, ops[i], states[i + 1]);
  }

  // ----- no node goes while the kernel holds a lookup of it -----

  /** The kernel gives back no more lookups than it was answered, and does not rename a name to itself. */
  predicate Honest(ops: seq<Op>)
  {
    forall i :: 0 <= i < |ops| ==>
      && (ops[i].Forgets? ==> ops[i].k <= KernelLookups(ops, ops[i].n, i))
      && (ops[i].Renames? ==> ops[i].src != ops[i].dst)
  }

  lemma {:induction false} KernelHolds(ops: seq<Op>, n: NodeId, i: nat)
    requires Honest(ops) && i <= |ops|
    ensures KernelLookups(ops, n, i) >= 0
  {
    if i > 0 {
      KernelHolds(ops, n, i - 1);
    }
  }

  /** Whoever has a name afterwards is new, or had one and has not been unlinked. */
  lemma StaysNamed(s: Refs, remember: bool, op: Op, n: NodeId)
    requires RefsOk(s) && Enabled(s, remember, op) && (op.Renames? ==> op.src != op.dst)
    requires n in Apply(s, remember, op).tree.link && !(op.New? && op.n == n)
    ensures n in s.tree.link && !Unlinks(s, op, n)
  {
    match op
    case Forgets(m, k) => ForgottenNames(s, m, k);
    case Cleans(m) => ForgottenNames(s, m, 1);
    case Unpins(m) => UnrefEffect(s, {}, m);
    case Removes(at) => RemovedKeeps(s, at, remember);
    case Renames(src, dst, hiding, keeps) => RenamedNames(s, remember, src, dst, hiding, keeps, n);
    case Exchanges(src, dst, keepsOld, keepsNew) => ExchangedNames(s, src, dst, keepsOld, keepsNew, n);
    case _ =>
  }

  lemma ForgottenNames(s: Refs, n: NodeId, k: nat)
    requires RefsOk(s) && n != ROOT && Live(s, n) && k <= s.nlookup[n]
    ensures Forget(s, n, k).tree.link.Keys <= s.tree.link.Keys
  {
    if k < s.nlookup[n] {
      ForgetSome(s, n, k);
    } else {
      ForgetLast(s, n);
    }
  }

  lemma RenamedNames(s: Refs, remember: bool, src: Link, dst: Link, hiding: bool, keeps: bool, n: NodeId)
    requires CanRename(s, src, dst, remember, hiding) && src != dst
    requires n in RenamedTo(s, src, dst, remember, hiding, keeps).tree.link
    ensures n in s.tree.link && !Unlinks(s, Op.Renames(src, dst, hiding, keeps), n)
  {
    if src in s.tree.index && !(dst in s.tree.index && hiding) {
      MovedIs(s, src, dst, remember, keeps);
      MovedNames(s, remember, src, dst, keeps, Moved(s, src, dst, remember, keeps), n);
    }
  }

  lemma MovedNames(s: Refs, remember: bool, src: Link, dst: Link, keeps: bool, s': Refs, n: NodeId)
    requires RefsOk(s) && src != dst && n in s'.tree.link && RenameDone(s, src, dst, remember, keeps, s') == true
    ensures n in s.tree.link && (dst in s.tree.index ==> s.tree.index[dst] != n)
  {
    EntryNode(s, src);
    if dst in s.tree.index {
      EntryNode(s, dst);
    }
  }

  lemma ExchangedNames(s: Refs, src: Link, dst: Link, keepsOld: bool, keepsNew: bool, n: NodeId)
    requires CanExchange(s, src, dst) && n in ExchangedFor(s, src, dst, keepsOld, keepsNew).tree.link
    ensures n in s.tree.link
  {
    ExchangedIs(s, src, dst, keepsOld, keepsNew);
    if src in s.tree.index {
      EntryNode(s, src);
    }
    if dst in s.tree.index {
      EntryNode(s, dst);
    }
  }

  /** The cache holds its lookup of a node until the node is unlinked, and gives back no more than that. */
  lemma {:induction false} CacheHolds(states: seq<Index>, remember: bool, ops: seq<Op>, i: nat, n: NodeId)
    requires IsRun(states, remember, ops) && Honest(ops) && i < |states| && n in states[i].refs.tree.up
    ensures 0 <= CacheLookups(states, remember, ops, n, i) <= 1
    ensures remember && n in states[i].refs.tree.link ==> CacheLookups(states, remember, ops, n, i) == 1
  {
    if i > 0 && remember && !(ops[i - 1].New? && ops[i - 1].n == n) {
      StepOfRun(states, remember, ops, i - 1);
      var s, op := states[i - 1].refs, ops[i - 1];
      LookupsAfter(s, remember, op, n);
      CacheHolds(states, remember, ops, i - 1, n);
      if n in states[i].refs.tree.link {
        StaysNamed(s, remember, op, n);
      } else if Unlinks(s, op, n) {
        UnlinkedHadName(s, remember, op, n);
      }
    }
  }

  lemma UnlinkedHadName(s: Refs, remember: bool, op: Op, n: NodeId)
    requires RefsOk(s) && Enabled(s, remember, op) && Unlinks(s, op, n)
    ensures n in s.tree.link
  {
    EntryNode(s, if op.Removes? then op.at else op.dst);
  }

  /** A node goes with no lookup left, but for the one that the cleaning takes. */
  lemma GoesUnlooked(s: Refs, remember: bool, op: Op, n: NodeId)
    requires RefsOk(s) && Enabled(s, remember, op) && n in s.tree.up && n !in Apply(s, remember, op).tree.up
    ensures n in s.nlookup && !op.New? && op != Known(n)
    ensures s.nlookup[n] == if op.Forgets? && op.n == n then op.k else if op == Cleans(n) then 1 else 0
  {
    match op
    case Forgets(m, k) =>
      if k < s.nlookup[m] {
        ForgetSome(s, m, k);
      } else {
        ForgetLast(s, m);
      }
    case Cleans(m) => ForgetLast(s, m);
    case Unpins(m) => UnrefEffect(s, {}, m);
    case Removes(at) => RemovedKeeps(s, at, remember);
    case Renames(src, dst, hiding, keeps) =>
      if src in s.tree.index && !(dst in s.tree.index && hiding) {
        MovedIs(s, src, dst, remember, keeps);
      }
    case Exchanges(src, dst, keepsOld, keepsNew) => ExchangedIs(s, src, dst, keepsOld, keepsNew);
    case _ =>
  }

  /**
    When a node goes, the kernel has given back every lookup of it; unless it
    is the cleaning of the cache that takes it, after the cache's own lookup
    went with the name: then the one that is taken is the kernel's.
   */
  lemma GoesWhenReturned(states: seq<Index>, remember: bool, ops: seq<Op>, i: nat, n: NodeId)
    requires IsRun(states, remember, ops) && Honest(ops) && i < |ops|
    requires n in states[i].refs.tree.up && n !in states[i + 1].refs.tree.up
    ensures KernelLookups(ops, n, i + 1) ==
            if ops[i] == Cleans(n) then 1 - CacheLookups(states, remember, ops, n, i) else 0
  {
    StepOfRun(states, remember, ops, i);
    GoesUnlooked(states[i].refs, remember, ops[i], n);
    LookupsAreCounted(states, remember, ops, i, n);
    CacheHolds(states, remember, ops, i, n);
    KernelHolds(ops, n, i);
    KernelHolds(ops, n, i + 1);
  }

  /** The kernel holds a lookup of n after an honest run, whose last operation has cleaned n away. */
  ghost predicate TakesKernels(states: seq<Index>, ops: seq<Op>, n: NodeId)
  {
    && IsRun(states, true, ops) && Honest(ops) && ops != [] && ops[|ops| - 1] == Cleans(n)
    && n !in states[|ops|].refs.tree.up && KernelLookups(ops, n, |ops|) == 1
  }

  /**
    Such a run: a node is looked up twice and unlinked, one lookup is given
    back, and the cleaning takes the other, which is the kernel's.
   */
  lemma CleanedWhileHeld()
    ensures exists states: seq<Index>, ops: seq<Op> :: TakesKernels(states, ops, 2)
  {
    var at := Link(ROOT, "a");
    var ops := [New(2, at), Known(2), Op.Removes(at), Forgets(2, 1), Cleans(2)];
    var s1 := MadeFirst(at);
    var s2 := LookedUpAgain(s1, at);
    var states := LookedUpTwice(ops, at, NI.InitialState(), s1, s2);
    assert TakesKernels(states, ops, 2) == true;
  }

  /** From s2 on: the node is unlinked, one lookup is given back, and the cleaning comes. */
  lemma LookedUpTwice(ops: seq<Op>, at: Link, s0: Refs, s1: Refs, s2: Refs) returns (states: seq<Index>)
    requires ops == [New(2, at), Known(2), Op.Removes(at), Forgets(2, 1), Cleans(2)] && s0 == NI.InitialState()
    requires Leads(Index(s0, 0, 0), true, New(2, at), Index(s1, 0, 2)) == true
    requires Leads(Index(s1, 0, 2), true, Known(2), Index(s2, 0, 2)) == true
    requires CanRemove(s2, at, true) == true && OneNode(s2, at, 3) == true
    ensures TakesKernels(states, ops, 2) == true
  {
    CountedUp(ops, at);
    var s3 := Removed(s2, at, true);
    NoNewId(s2, Op.Removes(at), s3);
    OneLookupLeft(s2, at);
    var s4 := Forget(s3, 2, 1);
    NoNewId(s3, Forgets(2, 1), s4);
    NoNewId(s4, Cleans(2), Forget(s4, 2, 1));
    states := FiveSteps(ops, s0, s1, s2, s3, s4, Forget(s4, 2, 1));
    KernelsTaken(states, ops);
  }

  /** The only node that has a name is 2, and it is looked up so many times. */
  predicate OneNode(s: Refs, at: Link, lookups: nat)
  {
    && s.tree.link == map[2 := at] && at in s.tree.index && s.tree.index[at] == 2
    && 2 in s.tree.up && 2 in s.nlookup && s.nlookup[2] == lookups && s.pins == multiset{}
  }

  lemma OneLookupLeft(s2: Refs, at: Link)
    requires CanRemove(s2, at, true) && OneNode(s2, at, 3)
    ensures var s3 := Removed(s2, at, true);
      && RefsOk(s3) && Live(s3, 2) && s3.nlookup[2] == 2
      && var s4 := Forget(s3, 2, 1);
      && RefsOk(s4) && Live(s4, 2) && s4.nlookup[2] == 1 && 2 in s4.refctr && s4.refctr[2] == 1
      && 2 !in Forget(s4, 2, 1).tree.up
  {
    RemovedKeeps(s2, at, true);
    var s3 := Removed(s2, at, true);
    ForgetSome(s3, 2, 1);
    var s4 := Forget(s3, 2, 1);
    assert Children(s4.tree, 2) == {};
    assert CountOk(s4, 2);
    ForgetLast(s4, 2);
  }

  lemma NoNewId(s: Refs, op: Op, s': Refs)
    requires RefsOk(s) && Enabled(s, true, op) && s' == Apply(s, true, op) && !op.New? && !op.Wastes?
    ensures Leads(Index(s, 0, 2), true, op, Index(s', 0, 2)) == true
  {
  }

  lemma FiveSteps(ops: seq<Op>, s0: Refs, s1: Refs, s2: Refs, s3: Refs, s4: Refs, s5: Refs)
    returns (states: seq<Index>)
    requires |ops| == 5 && s0 == NI.InitialState()
    requires Leads(Index(s0, 0, 0), true, ops[0], Index(s1, 0, 2)) == true
    requires Leads(Index(s1, 0, 2), true, ops[1], Index(s2, 0, 2)) == true
    requires Leads(Index(s2, 0, 2), true, ops[2], Index(s3, 0, 2)) == true
    requires Leads(Index(s3, 0, 2), true, ops[3], Index(s4, 0, 2)) == true
    requires Leads(Index(s4, 0, 2), true, ops[4], Index(s5, 0, 2)) == true
    ensures IsRun(states, true, ops) == true && states[5] == Index(s5, 0, 2)
  {
    var x1 := NoStep(ops);
    var x2 := OneMore(x1, ops, 0, Index(s0, 0, 0), Index(s1, 0, 2));
    var x3 := OneMore(x2, ops, 1, Index(s1, 0, 2), Index(s2, 0, 2));
    var x4 := OneMore(x3, ops, 2, Index(s2, 0, 2), Index(s3, 0, 2));
    var x5 := OneMore(x4, ops, 3, Index(s3, 0, 2), Index(s4, 0, 2));
    states := OneMore(x5, ops, 4, Index(s4, 0, 2), Index(s5, 0, 2));
    assert ops[..5] == ops;
  }

  lemma KernelsTaken(states: seq<Index>, ops: seq<Op>)
    requires |ops| == 5 && IsRun(states, true, ops) == true && Honest(ops) == true && ops[4] == Cleans(2)
    requires 2 !in states[5].refs.tree.up && KernelLookups(ops, 2, 5) == 1
    ensures TakesKernels(states, ops, 2) == true
  {
  }

  lemma NoStep(ops: seq<Op>) returns (states: seq<Index>)
    ensures states == [Index(NI.InitialState(), 0, 0)] && IsRun(states, true, ops[..0]) == true
  {
    states := [Index(NI.InitialState(), 0, 0)];
  }

  lemma OneMore(states: seq<Index>, ops: seq<Op>, k: nat, w: Index, x: Index) returns (more: seq<Index>)
    requires k < |ops| && IsRun(states, true, ops[..k]) == true && |states| == k + 1 && states[k] == w
    requires Leads(w, true, ops[k], x) == true
    ensures IsRun(more, true, ops[..k + 1]) == true && |more| == k + 2 && more[k + 1] == x
  {
    more := states + [x];
    forall i | 0 <= i < k + 1 ensures Leads(more[i], true, ops[..k + 1][i], more[i + 1]) {
      if i < k {
        assert Leads(states[i], true, ops[..k][i], states[i + 1]);
      }
    }
  }

  lemma MadeFirst(at: Link) returns (s1: Refs)
    requires at == Link(ROOT, "a")
    ensures Leads(Index(NI.InitialState(), 0, 0), true, New(2, at), Index(s1, 0, 2)) == true
    ensures RefsOk(s1) == true && OneNode(s1, at, 2) == true && Live(s1, ROOT)
  {
    s1 := Created(NI.InitialState(), 2, at, 2);
    InitialOk();
    CreatedKeeps(NI.InitialState(), 2, at, 2);
  }

  lemma LookedUpAgain(s1: Refs, at: Link) returns (s2: Refs)
    requires RefsOk(s1) == true && OneNode(s1, at, 2) == true && Live(s1, ROOT) && at.parent == ROOT
    ensures Leads(Index(s1, 0, 2), true, Known(2), Index(s2, 0, 2)) == true
    ensures CanRemove(s2, at, true) == true && OneNode(s2, at, 3) == true
  {
    s2 := IncLookup(s1, 2);
    IncLookupKeeps(s1, 2);
  }

  lemma CountedUp(ops: seq<Op>, at: Link)
    requires ops == [New(2, at), Known(2), Op.Removes(at), Forgets(2, 1), Cleans(2)]
    ensures KernelLookups(ops, 2, 3) == 2 && KernelLookups(ops, 2, 5) == 1 && Honest(ops)
  {
    assert KernelLookups(ops, 2, 1) == 1;
    assert KernelLookups(ops, 2, 2) == 2;
    assert KernelLookups(ops, 2, 4) == 1;
  }
}
