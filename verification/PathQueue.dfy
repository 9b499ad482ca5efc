/**
  The path-lock protocol as a transition system: every step runs under the
  one mutex of struct fuse. Requests are granted or queued, releases retry the queue
  in order, and operations that hold paths rename, exchange and remove names
  (lib/fuse.c, get_path_common to exchange_node).
 */
module PathQueue {
  import opened Wrappers
  import opened PathTree
  import opened PathLocks
  import opened PathRequests

  /** struct lock_queue_element; forget_node only waits for its node to be unlocked. */
  datatype Waiter =
    | PathWaiter(req: Request, done: bool, err: Err, got: seq<Hold>)
    | ForgetWaiter(node: NodeId, signalled: bool)

  /** movers: the holds whose operation has changed names since the queue was last retried. */
  datatype Fuse = Fuse(sys: Sys, queue: seq<Waiter>, next: HoldId, movers: set<HoldId>)

  predicate WaiterOk(t: Tree, w: Waiter)
  {
    match w
    case PathWaiter(req, _, _, _) => RequestOk(t, req)
    case ForgetWaiter(node, _) => node in t.up
  }

  /** A waiter that is still asleep could not go on if it were tried now. */
  ghost predicate WaiterSettled(s: Sys, w: Waiter)
    requires WaiterOk(s.tree, w)
  {
    match w
    case PathWaiter(req, done, _, _) => done || Refused(s.tree, s.word, req)
    case ForgetWaiter(node, signalled) => node in s.word && s.word[node] == 0 ==> signalled
  }

  ghost predicate FuseOk(f: Fuse)
  {
    && SysOk(f.sys)
    && (forall h :: h in f.sys.holds ==> h < f.next)
    && (forall i :: 0 <= i < |f.queue| ==> WaiterOk(f.sys.tree, f.queue[i]))
  }

  ghost predicate Settled(f: Fuse)
    requires FuseOk(f)
  {
    forall i :: 0 <= i < |f.queue| ==> WaiterSettled(f.sys, f.queue[i])
  }

  /** Whoever waits in forget_node for a node that is unlocked has been signalled. */
  ghost predicate ForgettersSettled(f: Fuse)
    requires FuseOk(f)
  {
    forall i :: 0 <= i < |f.queue| && f.queue[i].ForgetWaiter? ==> WaiterSettled(f.sys, f.queue[i])
  }

  /** The invariant of the protocol. */
  ghost predicate Inv(f: Fuse)
  {
    && FuseOk(f)
    && f.movers <= f.sys.holds.Keys
    && ForgettersSettled(f)
    && (f.movers == {} ==> Settled(f))
  }

  // ----- granting -----

  function Take(s: Sys, next: HoldId, a: Attempt): Sys
  {
    s.(word := a.word,
       holds := if |a.holds| == 0 then s.holds
                else if |a.holds| == 1 then s.holds[next := a.holds[0]]
                else s.holds[next := a.holds[0]][next + 1 := a.holds[1]])
  }

  /** s' is s with up to two more holds, numbered from next on. */
  ghost predicate Grown(s: Sys, next: HoldId, s': Sys, k: nat)
  {
    && SysOk(s') && s'.tree == s.tree && Tighter(s.word, s'.word)
    && s.holds.Keys <= s'.holds.Keys && |s'.holds| == |s.holds| + k
    && forall h :: h in s'.holds ==> h in s.holds || next <= h < next + k
  }

  lemma GrantGrows(s: Sys, h: HoldId, hold: Hold)
    requires SysOk(s) && h !in s.holds && |s.holds| + 1 < INT_MAX && Free(s.tree, s.word, hold)
    ensures Grown(s, h, WithHold(s, h, hold), 1)
  {
    GrantKeepsOk(s, h, hold);
    LockingTightens(s.tree, s.word, hold);
    assert WithHold(s, h, hold).holds.Keys == s.holds.Keys + {h};
  }

  /** An attempt, granted or not, keeps the words exact. */
  lemma AttemptKeepsOk(s: Sys, next: HoldId, req: Request, memory: Memory)
    requires SysOk(s) && RequestOk(s.tree, req) && |s.holds| + 2 < INT_MAX
    requires forall h :: h in s.holds ==> h < next
    ensures var a := TryRequest(s.tree, s.word, req, memory);
      |a.holds| <= 2 && Grown(s, next, Take(s, next, a), |a.holds|)
  {
    RequestAllOrNothing(s.tree, s.word, req, memory);
    var a := TryRequest(s.tree, s.word, req, memory);
    if a.err != Ok {
      MarksKeepOk(s, a.word);
      MarksTighten(s, a.word);
    } else if req.One? {
      GrantGrows(s, next, a.holds[0]);
    } else {
      GrantsGrow(s, next, a.holds[0], a.holds[1]);
    }
  }

  lemma GrantsGrow(s: Sys, next: HoldId, hold1: Hold, hold2: Hold)
    requires SysOk(s) && |s.holds| + 2 < INT_MAX && forall h :: h in s.holds ==> h < next
    requires Free(s.tree, s.word, hold1) && hold1.node in s.tree.up
    requires Free(s.tree, Locked(s.tree, s.word, hold1), hold2) && hold2.node in s.tree.up
    ensures Grown(s, next, WithHold(WithHold(s, next, hold1), next + 1, hold2), 2)
  {
    GrantGrows(s, next, hold1);
    GrantGrows(WithHold(s, next, hold1), next + 1, hold2);
  }

  /** get_path_common, get_path2: try once, and queue up on EAGAIN. */
  function Acquire(f: Fuse, req: Request, memory: Memory): Fuse
    requires RequestOk(f.sys.tree, req)
  {
    var a := TryRequest(f.sys.tree, f.sys.word, req, memory);
    f.(sys := Take(f.sys, f.next, a),
       queue := if a.err == Again then f.queue + [PathWaiter(req, false, Again, [])] else f.queue,
       next := f.next + |a.holds|)
  }

  lemma StillSettled(s: Sys, s': Sys, w: Waiter)
    requires SysOk(s) && s'.tree == s.tree && Tighter(s.word, s'.word)
    requires WaiterOk(s.tree, w) && WaiterSettled(s, w)
    ensures WaiterSettled(s', w)
  {
    if w.PathWaiter? && !w.done {
      RefusedMonotone(s.tree, s.word, s'.word, w.req);
    }
  }

  lemma AcquireKeepsInv(f: Fuse, req: Request, memory: Memory)
    requires Inv(f) && RequestOk(f.sys.tree, req) && |f.sys.holds| + 2 < INT_MAX
    ensures Inv(Acquire(f, req, memory))
    ensures Tighter(f.sys.word, Acquire(f, req, memory).sys.word)
  {
    var a := TryRequest(f.sys.tree, f.sys.word, req, memory);
    var r := Acquire(f, req, memory);
    AttemptKeepsOk(f.sys, f.next, req, memory);
    RequestAllOrNothing(f.sys.tree, f.sys.word, req, memory);
    forall i | 0 <= i < |r.queue| && r.queue[i].ForgetWaiter? ensures WaiterSettled(r.sys, r.queue[i]) {
      StillSettled(f.sys, r.sys, f.queue[i]);
    }
    if f.movers == {} {
      forall i | 0 <= i < |r.queue| ensures WaiterSettled(r.sys, r.queue[i]) {
        if i < |f.queue| {
          StillSettled(f.sys, r.sys, f.queue[i]);
        } else {
          RefusedExactly(f.sys.tree, f.sys.word, req, memory);
          RefusedMonotone(f.sys.tree, f.sys.word, r.sys.word, req);
        }
      }
    }
  }

  // ----- waking up the queue -----

  function MemoryAt(mem: seq<Memory>, i: nat): Memory
  {
    if i < |mem| then mem[i] else Memory(0, 0)
  }

  /** queue_element_wakeup */
  function WakeOne(f: Fuse, i: nat, memory: Memory): Fuse
    requires i < |f.queue| && WaiterOk(f.sys.tree, f.queue[i])
  {
    match f.queue[i]
    case ForgetWaiter(node, _) =>
      if node in f.sys.word && f.sys.word[node] == 0 then f.(queue := f.queue[i := ForgetWaiter(node, true)]) else f
    case PathWaiter(req, done, _, _) =>
      if done then f
      else
        var a := TryRequest(f.sys.tree, f.sys.word, req, memory);
        f.(sys := Take(f.sys, f.next, a),
           queue := if a.err == Again then f.queue
                    else f.queue[i := PathWaiter(req, true, a.err, a.holds)],
           next := f.next + |a.holds|)
  }

  /** r is f with one queue element retried. */
  ghost predicate Retried(f: Fuse, i: nat, r: Fuse)
    requires i < |f.queue|
  {
    && FuseOk(r) && |r.queue| == |f.queue| && r.sys.tree == f.sys.tree && r.movers == f.movers
    && (forall j :: 0 <= j < |f.queue| && j != i ==> r.queue[j] == f.queue[j])
    && WaiterSettled(r.sys, r.queue[i])
    && Tighter(f.sys.word, r.sys.word)
    && f.sys.holds.Keys <= r.sys.holds.Keys && |r.sys.holds| <= |f.sys.holds| + 2
  }

  lemma RetryPath(f: Fuse, i: nat, memory: Memory)
    requires FuseOk(f) && i < |f.queue| && |f.sys.holds| + 2 < INT_MAX
    requires f.queue[i].PathWaiter? && !f.queue[i].done
    ensures Retried(f, i, WakeOne(f, i, memory))
  {
    var req := f.queue[i].req;
    AttemptKeepsOk(f.sys, f.next, req, memory);
    var a := TryRequest(f.sys.tree, f.sys.word, req, memory);
    if a.err == Again {
      RefusedExactly(f.sys.tree, f.sys.word, req, memory);
      RefusedMonotone(f.sys.tree, f.sys.word, a.word, req);
    }
  }

  lemma WakeOneKeepsOk(f: Fuse, i: nat, memory: Memory)
    requires FuseOk(f) && i < |f.queue| && |f.sys.holds| + 2 < INT_MAX
    ensures Retried(f, i, WakeOne(f, i, memory))
  {
    if f.queue[i].PathWaiter? && !f.queue[i].done {
      RetryPath(f, i, memory);
    }
  }

  /** wake_up_queued, from queue position i on */
  function WakeFrom(f: Fuse, i: nat, mem: seq<Memory>): Fuse
    requires i <= |f.queue|
    requires forall j :: 0 <= j < |f.queue| ==> WaiterOk(f.sys.tree, f.queue[j])
    decreases |f.queue| - i
  {
    if i == |f.queue| then f else WakeFrom(WakeOne(f, i, MemoryAt(mem, i)), i + 1, mem)
  }

  lemma {:induction false} WakeSettles(f: Fuse, i: nat, mem: seq<Memory>)
    requires FuseOk(f) && i <= |f.queue| && |f.sys.holds| + 2 * (|f.queue| - i) < INT_MAX
    requires forall j :: 0 <= j < i ==> WaiterSettled(f.sys, f.queue[j])
    ensures var r := WakeFrom(f, i, mem);
      && FuseOk(r) && Settled(r) && r.movers == f.movers && r.sys.tree == f.sys.tree
      && f.sys.holds.Keys <= r.sys.holds.Keys
    decreases |f.queue| - i
  {
    if i < |f.queue| {
      var g := WakeOne(f, i, MemoryAt(mem, i));
      WakeOneKeepsOk(f, i, MemoryAt(mem, i));
      forall j | 0 <= j < i + 1 ensures WaiterSettled(g.sys, g.queue[j]) {
        if j < i {
          StillSettled(f.sys, g.sys, f.queue[j]);
        }
      }
      WakeSettles(g, i + 1, mem);
    }
  }

  // ----- holds that stay -----

  /** The holds numbered below next are the same. */
  predicate HoldsStay(s: Sys, next: HoldId, s': Sys)
  {
    && s'.tree == s.tree
    && (forall h :: h in s.holds ==> h in s'.holds && s'.holds[h] == s.holds[h])
    && forall h :: h in s'.holds && h < next ==> h in s.holds
  }

  lemma TakeStays(s: Sys, next: HoldId, req: Request, memory: Memory)
    requires RequestOk(s.tree, req) && forall h :: h in s.holds ==> h < next
    ensures HoldsStay(s, next, Take(s, next, TryRequest(s.tree, s.word, req, memory)))
  {
    GrantsStay(s, next, TryRequest(s.tree, s.word, req, memory));
  }

  lemma GrantsStay(s: Sys, next: HoldId, a: Attempt)
    requires forall h :: h in s.holds ==> h < next
    ensures HoldsStay(s, next, Take(s, next, a))
  {
  }

  lemma WakeOneStays(f: Fuse, i: nat, memory: Memory)
    requires FuseOk(f) && i < |f.queue|
    ensures HoldsStay(f.sys, f.next, WakeOne(f, i, memory).sys) && f.next <= WakeOne(f, i, memory).next
  {
    if f.queue[i].PathWaiter? && !f.queue[i].done {
      TakeStays(f.sys, f.next, f.queue[i].req, memory);
    }
  }

  lemma {:induction false} WakeStays(f: Fuse, i: nat, mem: seq<Memory>)
    requires FuseOk(f) && i <= |f.queue| && |f.sys.holds| + 2 * (|f.queue| - i) < INT_MAX
    ensures HoldsStay(f.sys, f.next, WakeFrom(f, i, mem).sys) == true && f.next <= WakeFrom(f, i, mem).next
    decreases |f.queue| - i
  {
    if i < |f.queue| {
      WakeOneKeepsOk(f, i, MemoryAt(mem, i));
      WakeOneStays(f, i, MemoryAt(mem, i));
      WakeStays(WakeOne(f, i, MemoryAt(mem, i)), i + 1, mem);
    }
  }

  // ----- what a woken request is told -----

  /** The paths in got are granted in s, under the numbers from first on. */
  ghost predicate Granted(s: Sys, first: HoldId, got: seq<Hold>)
  {
    forall m {:trigger got[m]} :: 0 <= m < |got| ==> first + m in s.holds && s.holds[first + m] == got[m]
  }

  /**
    The outcome that a request is told, if it is told one: success and all its
    paths, or an error and none; which of them is up to the tree, and to memory.
   */
  ghost predicate Told(t: Tree, req: Request, memory: Memory, err: Err, got: seq<Hold>)
    requires WellFormed(t) && RequestOk(t, req)
  {
    && (if err == Ok then AllConnected(t, req) && HoldsFit(t, req, got) else err != Again && got == [])
    && (err == Stale ==> !AllConnected(t, req)) && (err == NoMemory ==> !EnoughFor(t, req, memory))
  }

  /** From f to r the request at position k was told its outcome, or goes on waiting. */
  ghost predicate Answered(f: Fuse, k: nat, memory: Memory, r: Fuse)
    requires FuseOk(f) && k < |f.queue|
  {
    f.queue[k].PathWaiter? && !f.queue[k].done ==>
      && k < |r.queue| && r.queue[k].PathWaiter? && r.queue[k].req == f.queue[k].req
      && var w := r.queue[k];
      w.done ==>
        && Told(f.sys.tree, w.req, memory, w.err, w.got)
        && exists first :: f.next <= first && Granted(r.sys, first, w.got)
  }

  lemma WakeOneAnswers(f: Fuse, i: nat, memory: Memory)
    requires FuseOk(f) && i < |f.queue|
    ensures Answered(f, i, memory, WakeOne(f, i, memory)) == true
  {
    if f.queue[i].PathWaiter? && !f.queue[i].done {
      var req := f.queue[i].req;
      var a := TryRequest(f.sys.tree, f.sys.word, req, memory);
      AttemptTells(f.sys.tree, f.sys.word, req, memory);
      TakeGrants(f.sys, f.next, a);
      assert a.err != Again ==> Granted(WakeOne(f, i, memory).sys, f.next, a.holds);
    }
  }

  lemma AttemptTells(t: Tree, word: map<NodeId, int>, req: Request, memory: Memory)
    requires WellFormed(t) && RequestOk(t, req) && word.Keys == t.up.Keys
    ensures var a := TryRequest(t, word, req, memory);
      |a.holds| <= 2 && (a.err != Again ==> Told(t, req, memory, a.err, a.holds) == true)
  {
    RequestDoes(t, word, req, memory);
    RequestOutcome(t, word, req, memory);
  }

  lemma TakeGrants(s: Sys, next: HoldId, a: Attempt)
    requires |a.holds| <= 2
    ensures Granted(Take(s, next, a), next, a.holds)
  {
  }

  /** The others are not touched, and nobody's paths are taken away. */
  lemma {:induction false} WakeAnswers(f: Fuse, i: nat, mem: seq<Memory>, k: nat)
    requires FuseOk(f) && i <= k < |f.queue| && |f.sys.holds| + 2 * (|f.queue| - i) < INT_MAX
    ensures Answered(f, k, MemoryAt(mem, k), WakeFrom(f, i, mem)) == true
    decreases k - i
  {
    var g := WakeOne(f, i, MemoryAt(mem, i));
    WakeOneKeepsOk(f, i, MemoryAt(mem, i));
    WakeOneStays(f, i, MemoryAt(mem, i));
    if i < k {
      WakeAnswers(g, i + 1, mem, k);
      AnsweredSince(f, g, k, MemoryAt(mem, k), WakeFrom(g, i + 1, mem));
    } else {
      WakeOneAnswers(f, i, MemoryAt(mem, i));
      WakeSpares(g, i + 1, mem, k);
      WakeStays(g, i + 1, mem);
      StillAnswered(f, g, k, MemoryAt(mem, k), WakeFrom(g, i + 1, mem));
    }
  }

  lemma AnsweredSince(f: Fuse, g: Fuse, k: nat, memory: Memory, r: Fuse)
    requires FuseOk(f) && FuseOk(g) && k < |f.queue| == |g.queue| && g.queue[k] == f.queue[k]
    requires g.sys.tree == f.sys.tree && f.next <= g.next && Answered(g, k, memory, r) == true
    ensures Answered(f, k, memory, r) == true
  {
  }

  lemma StillAnswered(f: Fuse, g: Fuse, k: nat, memory: Memory, r: Fuse)
    requires FuseOk(f) && k < |f.queue| && Answered(f, k, memory, g) == true
    requires k < |g.queue| == |r.queue| && r.queue[k] == g.queue[k] && HoldsStay(g.sys, g.next, r.sys)
    ensures Answered(f, k, memory, r) == true
  {
    if f.queue[k].PathWaiter? && !f.queue[k].done && g.queue[k].done {
      var first :| f.next <= first && Granted(g.sys, first, g.queue[k].got);
      assert Granted(r.sys, first, r.queue[k].got);
    }
  }

  lemma {:induction false} WakeSpares(f: Fuse, i: nat, mem: seq<Memory>, k: nat)
    requires FuseOk(f) && k < i <= |f.queue| && |f.sys.holds| + 2 * (|f.queue| - i) < INT_MAX
    ensures |WakeFrom(f, i, mem).queue| == |f.queue| && WakeFrom(f, i, mem).queue[k] == f.queue[k]
    ensures Tighter(f.sys.word, WakeFrom(f, i, mem).sys.word) == true
    decreases |f.queue| - i
  {
    if i < |f.queue| {
      WakeOneKeepsOk(f, i, MemoryAt(mem, i));
      WakeSpares(WakeOne(f, i, MemoryAt(mem, i)), i + 1, mem, k);
    }
  }

  // ----- nobody is passed over -----

  /** The holds of s are those of f, and paths that went to the requests before position k. */
  ghost predicate OnlyEarlier(f: Fuse, s: Sys, r: Fuse, k: nat)
    requires k <= |r.queue|
  {
    forall h :: h in s.holds ==>
      || (h in f.sys.holds && s.holds[h] == f.sys.holds[h])
      || exists j :: 0 <= j < k && r.queue[j].PathWaiter? && s.holds[h] in r.queue[j].got
  }

  /** A request that still waits was refused in its turn, by what was locked before or had gone to earlier ones. */
  ghost predicate RefusedInTurn(f: Fuse, r: Fuse, k: nat, req: Request)
    requires k <= |r.queue| && RequestOk(f.sys.tree, req)
  {
    exists s: Sys ::
      && SysOk(s) && s.tree == f.sys.tree && Tighter(f.sys.word, s.word) && Tighter(s.word, r.sys.word)
      && Refused(s.tree, s.word, req) && OnlyEarlier(f, s, r, k)
  }

  /** From f to r the request at position k was answered, or refused in its turn. */
  ghost predicate InTurn(f: Fuse, k: nat, r: Fuse)
    requires FuseOk(f) && k < |f.queue| && f.queue[k].PathWaiter?
  {
    && |r.queue| == |f.queue| && r.queue[k].PathWaiter?
    && (!r.queue[k].done ==> RefusedInTurn(f, r, k, f.queue[k].req))
  }

  lemma {:induction false} WakeInOrder(f: Fuse, i: nat, mem: seq<Memory>, k: nat)
    requires FuseOk(f) && i <= k < |f.queue| && |f.sys.holds| + 2 * (|f.queue| - i) < INT_MAX
    requires f.queue[k].PathWaiter? && !f.queue[k].done
    ensures InTurn(f, k, WakeFrom(f, i, mem)) == true
    decreases k - i
  {
    if i < k {
      var g := WakeOne(f, i, MemoryAt(mem, i));
      WakeOneKeepsOk(f, i, MemoryAt(mem, i));
      WakeSpares(g, i + 1, mem, i);
      WakeInOrder(g, i + 1, mem, k);
      InTurnEarlier(f, i, MemoryAt(mem, i), WakeFrom(g, i + 1, mem), k);
    } else {
      OwnTurn(f, k, mem);
    }
  }

  lemma OwnTurn(f: Fuse, k: nat, mem: seq<Memory>)
    requires FuseOk(f) && k < |f.queue| && |f.sys.holds| + 2 * (|f.queue| - k) < INT_MAX
    requires f.queue[k].PathWaiter? && !f.queue[k].done
    ensures InTurn(f, k, WakeFrom(f, k, mem)) == true
  {
    var g := WakeOne(f, k, MemoryAt(mem, k));
    WakeOneKeepsOk(f, k, MemoryAt(mem, k));
    WakeSpares(g, k + 1, mem, k);
    RefusedAtOnce(f, WakeFrom(g, k + 1, mem), k, MemoryAt(mem, k));
  }

  lemma RefusedAtOnce(f: Fuse, r: Fuse, k: nat, memory: Memory)
    requires FuseOk(f) && k < |f.queue| == |r.queue| && f.queue[k].PathWaiter? && !f.queue[k].done
    requires WakeOne(f, k, memory).queue[k] == r.queue[k]
    requires Tighter(WakeOne(f, k, memory).sys.word, r.sys.word) == true && |f.sys.holds| + 2 < INT_MAX
    ensures InTurn(f, k, r) == true
  {
    if !r.queue[k].done {
      RefusedExactly(f.sys.tree, f.sys.word, f.queue[k].req, memory);
      WakeOneKeepsOk(f, k, memory);
      assert OnlyEarlier(f, f.sys, r, k);
    }
  }

  lemma InTurnEarlier(f: Fuse, i: nat, memory: Memory, r: Fuse, k: nat)
    requires FuseOk(f) && i < k < |f.queue| == |r.queue| && |f.sys.holds| + 2 < INT_MAX && f.queue[k].PathWaiter?
    requires var g := WakeOne(f, i, memory);
      Retried(f, i, g) == true && InTurn(g, k, r) == true && r.queue[i] == g.queue[i]
    ensures InTurn(f, k, r) == true
  {
    var g := WakeOne(f, i, memory);
    if !r.queue[k].done {
      var s: Sys :|
        && SysOk(s) && s.tree == g.sys.tree && Tighter(g.sys.word, s.word) && Tighter(s.word, r.sys.word)
        && Refused(s.tree, s.word, f.queue[k].req) && OnlyEarlier(g, s, r, k);
      TakenInTurn(f, i, memory, s, r, k);
      assert Tighter(f.sys.word, s.word);
    }
  }

  lemma TakenInTurn(f: Fuse, i: nat, memory: Memory, s: Sys, r: Fuse, k: nat)
    requires FuseOk(f) && i < k < |f.queue| == |r.queue|
    requires OnlyEarlier(WakeOne(f, i, memory), s, r, k) && r.queue[i] == WakeOne(f, i, memory).queue[i]
    ensures OnlyEarlier(f, s, r, k) == true
  {
    forall h | h in s.holds
      ensures (h in f.sys.holds && s.holds[h] == f.sys.holds[h])
              || exists j :: 0 <= j < k && r.queue[j].PathWaiter? && s.holds[h] in r.queue[j].got
    {
      if h in WakeOne(f, i, memory).sys.holds && s.holds[h] == WakeOne(f, i, memory).sys.holds[h] {
        TakenByThis(f, i, memory, h);
      }
    }
  }

  lemma TakenByThis(f: Fuse, i: nat, memory: Memory, h: HoldId)
    requires FuseOk(f) && i < |f.queue| && h in WakeOne(f, i, memory).sys.holds
    ensures var g := WakeOne(f, i, memory);
      || (h in f.sys.holds && g.sys.holds[h] == f.sys.holds[h])
      || (g.queue[i].PathWaiter? && g.sys.holds[h] in g.queue[i].got)
  {
    if f.queue[i].PathWaiter? && !f.queue[i].done {
      RequestDoes(f.sys.tree, f.sys.word, f.queue[i].req, memory);
    }
  }
}
