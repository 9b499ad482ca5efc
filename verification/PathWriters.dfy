/**
  Waiting writers: once a node carries the waiting mark, its readers can only
  go away, and the last one to go takes the mark with it.
 */
module PathWriters {
  import opened Wrappers
  import opened PathTree
  import opened PathLocks
  import opened PathRequests
  import opened PathQueue
  import opened PathRuns

  predicate Marked(s: Sys, n: NodeId)
  {
    n in s.word && s.word[n] < TREELOCK_WRITE
  }

  /** n's word and its readers are the same in both states. */
  predicate SameAt(s: Sys, s': Sys, n: NodeId)
  {
    n in s.word && n in s'.word && s'.word[n] == s.word[n] && Readers(s', n) == Readers(s, n)
  }

  /** No attempt, successful or not, gets through a marked node. */
  lemma AttemptSkipsMarked(s: Sys, next: HoldId, req: Request, memory: Memory, n: NodeId)
    requires SysOk(s) && RequestOk(s.tree, req) && |s.holds| + 2 < INT_MAX && Marked(s, n)
    requires forall h :: h in s.holds ==> h < next
    ensures SameAt(s, Take(s, next, TryRequest(s.tree, s.word, req, memory)), n)
  {
    RequestAllOrNothing(s.tree, s.word, req, memory);
    var a := TryRequest(s.tree, s.word, req, memory);
    if a.err != Ok {
      assert Readers(Take(s, next, a), n) == Readers(s, n);
    } else if req.One? {
    } else {
      BothSkipMarked(s, next, a.holds[0], a.holds[1], n);
    }
  }

  lemma BothSkipMarked(s: Sys, next: HoldId, h1: Hold, h2: Hold, n: NodeId)
    requires SysOk(s) && |s.holds| + 2 < INT_MAX && Marked(s, n) && next !in s.holds && next + 1 !in s.holds
    requires Free(s.tree, s.word, h1) && Free(s.tree, Locked(s.tree, s.word, h1), h2)
    ensures SameAt(s, WithHold(WithHold(s, next, h1), next + 1, h2), n)
  {
    GrantKeepsOk(s, next, h1);
  }

  lemma WakeOneSkipsMarked(f: Fuse, i: nat, memory: Memory, n: NodeId)
    requires FuseOk(f) && i < |f.queue| && |f.sys.holds| + 2 < INT_MAX && Marked(f.sys, n)
    ensures SameAt(f.sys, WakeOne(f, i, memory).sys, n)
  {
    if f.queue[i].PathWaiter? && !f.queue[i].done {
      AttemptSkipsMarked(f.sys, f.next, f.queue[i].req, memory, n);
    }
  }

  lemma {:induction false} WakeSkipsMarked(f: Fuse, i: nat, mem: seq<Memory>, n: NodeId)
    requires FuseOk(f) && i <= |f.queue| && |f.sys.holds| + 2 * (|f.queue| - i) < INT_MAX && Marked(f.sys, n)
    ensures SameAt(f.sys, WakeFrom(f, i, mem).sys, n)
    decreases |f.queue| - i
  {
    if i < |f.queue| {
      WakeOneKeepsOk(f, i, MemoryAt(mem, i));
      WakeOneSkipsMarked(f, i, MemoryAt(mem, i), n);
      WakeSkipsMarked(WakeOne(f, i, MemoryAt(mem, i)), i + 1, mem, n);
    }
  }

  /** A release takes its reader off a marked node; the last one clears the mark to 0. */
  lemma ReleaseDrains(s: Sys, h: HoldId, n: NodeId)
    requires SysOk(s) && h in s.holds && Marked(s, n)
    ensures s.holds[h].node in s.tree.up
    ensures var r := WithoutHold(s, h);
      && Readers(r, n) == Readers(s, n) - {h}
      && if Readers(r, n) == {} then r.word[n] == 0 else Marked(r, n)
  {
    ReleaseKeepsOk(s, h);
    ReleaseFindsItsMarks(s, h);
    ReleaseCounts(s, h, n);
    assert NodeWordOk(s, n);
    assert n in Body(s.tree, s.holds[h].node) <==> h in Readers(s, n);
  }

  function ReleasedHolds(step: Step): set<HoldId>
  {
    match step
    case FreePath(h, _) => {h}
    case FreePath2(h1, h2, _) => {h1, h2}
    case _ => {}
  }

  lemma ReleasedDrains(f: Fuse, step: Step, n: NodeId)
    requires Inv(f) && Enabled(f, step) && Marked(f.sys, n) && (step.FreePath? || step.FreePath2?)
    ensures var r := Released(f, step).sys;
      && Readers(r, n) == Readers(f.sys, n) - ReleasedHolds(step)
      && n in r.word
      && if Readers(r, n) == {} then r.word[n] == 0 else Marked(r, n)
  {
    var h := if step.FreePath? then step.h else step.h1;
    ReleaseDrains(f.sys, h, n);
    ReleaseKeepsOk(f.sys, h);
    if step.FreePath2? {
      var s1 := WithoutHold(f.sys, h);
      ReleaseKeepsOk(s1, step.h2);
      ReleaseCounts(s1, step.h2, n);
      if Readers(s1, n) == {} {
        ReleaseFindsItsMarks(s1, step.h2);
        assert step.h2 !in Readers(s1, n);
        assert WithoutHold(s1, step.h2).word[n] == 0;
      } else {
        ReleaseDrains(s1, step.h2, n);
      }
    }
  }

  lemma WalksKeepReaders(s: Sys, t: Tree, n: NodeId)
    requires SameWalks(s, t) && n in s.word && forall h :: h in s.holds ==> s.holds[h].node in s.tree.up
    ensures SameAt(s, s.(tree := t), n)
  {
    forall h | h in s.holds ensures ReadsThrough(s.(tree := t), h, n) == ReadsThrough(s, h, n) {
    }
    assert Readers(s.(tree := t), n) == Readers(s, n);
  }

  lemma MoveSkipsMarked(f: Fuse, step: Step, n: NodeId)
    requires Inv(f) && Enabled(f, step) && Marked(f.sys, n)
    requires step.RemoveNode? || step.RenameNode? || step.ExchangeNode?
    ensures SameAt(f.sys, Next(f, step).sys, n)
  {
    forall h | h in f.sys.holds ensures f.sys.holds[h].node in f.sys.tree.up {
      assert HoldOk(f.sys, h);
    }
    match step
    case RemoveNode(h, at) =>
      RemoveSame(f.sys, h, at);
      WalksKeepReaders(f.sys, RemoveTree(f.sys.tree, at), n);
    case RenameNode(h, under, oldAt, newAt, hiding, keeps) =>
      RenameSame(f.sys, h, under, oldAt, newAt, hiding, keeps);
      WalksKeepReaders(f.sys, RenameTree(f.sys.tree, oldAt, newAt, hiding, keeps), n);
    case ExchangeNode(h, under, oldAt, newAt, keeps1, keeps2) =>
      ExchangeSame(f.sys, h, under, oldAt, newAt, keeps1, keeps2);
      WalksKeepReaders(f.sys, ExchangeTree(f.sys.tree, oldAt, newAt, keeps1, keeps2), n);
  }

  /**
    A waiting writer is not starved: no step lets a new reader through a
    marked node, the mark stays as long as a reader is left, and the release
    of the last reader puts the word back to 0 before the queue is retried.
   */
  lemma MarkedOnlyDrains(f: Fuse, step: Step, n: NodeId)
    requires Inv(f) && Enabled(f, step) && Marked(f.sys, n)
    ensures Readers(f.sys, n) != {}
    ensures var left := Readers(f.sys, n) - ReleasedHolds(step);
      if left == {} then n in Released(f, step).sys.word && Released(f, step).sys.word[n] == 0
      else Marked(Next(f, step).sys, n) && Readers(Next(f, step).sys, n) == left
  {
    assert NodeWordOk(f.sys, n);
    match step
    case GetPath(req, memory) => AttemptSkipsMarked(f.sys, f.next, req, memory, n);
    case FreePath(_, mem) =>
      FreeDrains(f, step, n);
    case FreePath2(_, _, mem) =>
      FreeDrains(f, step, n);
    case FindNode(m, at) =>
      CreateCounts(f.sys, m, at, n);
    case Delete(gone) =>
      DeleteCounts(f.sys, gone, n);
    case Leave(_) =>
    case AwaitForget(_) =>
    case SleepAgain(_) =>
    case _ => MoveSkipsMarked(f, step, n);
  }

  lemma FreeDrains(f: Fuse, step: Step, n: NodeId)
    requires Inv(f) && Enabled(f, step) && Marked(f.sys, n) && (step.FreePath? || step.FreePath2?)
    ensures var left := Readers(f.sys, n) - ReleasedHolds(step);
      if left == {} then n in Released(f, step).sys.word && Released(f, step).sys.word[n] == 0
      else Marked(Next(f, step).sys, n) && Readers(Next(f, step).sys, n) == left
  {
    ReleasedDrains(f, step, n);
    ReleasedOk(f, step);
    if Readers(Released(f, step).sys, n) != {} {
      WakeSkipsMarked(Released(f, step), 0, step.mem, n);
    }
  }
}
