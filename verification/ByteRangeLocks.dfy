/**
  POSIX byte-range locks of one inode: one list of intervals shared by all
  lock owners, changed in place (lib/fuse.c, locks_insert and locks_conflict).

  The simple view of such a list is the type that an owner has locked a byte
  with, as KindAt gives it; Unlock means that there is no lock. All results
  relate the list to that view.
 */
module ByteRangeLocks {

  const OFFSET_MAX: int := 0x7fff_ffff_ffff_ffff

  datatype LockType = ReadLock | WriteLock | Unlock

  type Owner = nat

  datatype Lock = Lock(kind: LockType, start: int, end: int, pid: int, owner: Owner)

  predicate InRange(l: Lock)
  {
    0 <= l.start <= l.end <= OFFSET_MAX
  }

  predicate Covers(l: Lock, o: Owner, b: int)
  {
    l.owner == o && l.start <= b <= l.end
  }

  /** The lock that owner o holds on byte b. */
  function KindAt(s: seq<Lock>, o: Owner, b: int): LockType
  {
    if s == [] then Unlock
    else if Covers(s[0], o, b) then s[0].kind
    else KindAt(s[1..], o, b)
  }

  /** l and m (l first in the list) do not overlap, and do not touch if they could be merged. */
  predicate Apart(l: Lock, m: Lock)
  {
    l.owner == m.owner ==> l.end < m.start && (l.kind == m.kind ==> l.end + 1 < m.start)
  }

  /** Each owner's locks are sorted, disjoint and coalesced, and none is an Unlock. */
  ghost predicate Canonical(s: seq<Lock>)
  {
    && (forall i :: 0 <= i < |s| ==> InRange(s[i]) && s[i].kind != Unlock)
    && (forall i, j :: 0 <= i < j < |s| ==> Apart(s[i], s[j]))
  }

  /** after is before with (owner, byte) set to req.kind in the range of req, and nothing else changed. */
  ghost predicate Overlaid(before: seq<Lock>, req: Lock, after: seq<Lock>)
  {
    forall o: Owner, b: int :: KindAt(after, o, b) == if Covers(req, o, b) then req.kind else KindAt(before, o, b)
  }

  /** Some other owner holds a byte of req's range, and one of the two wants to write it. */
  ghost predicate Conflicting(s: seq<Lock>, req: Lock)
  {
    exists o: Owner, b: int :: o != req.owner && req.start <= b <= req.end && KindAt(s, o, b) != Unlock
                            && (KindAt(s, o, b) == WriteLock || req.kind == WriteLock)
  }

  /** No byte is held by two owners with one of them writing. */
  ghost predicate Exclusive(s: seq<Lock>)
  {
    forall o: Owner, p: Owner, b: int :: o != p && KindAt(s, o, b) == WriteLock ==> KindAt(s, p, b) == Unlock
  }

  // ----- the list and its pointwise view -----

  lemma {:induction false} KindAtConcat(s: seq<Lock>, t: seq<Lock>, o: Owner, b: int)
    requires forall i :: 0 <= i < |s| ==> s[i].kind != Unlock
    ensures KindAt(s + t, o, b) == if KindAt(s, o, b) != Unlock then KindAt(s, o, b) else KindAt(t, o, b)
  {
    if s == [] {
      assert s + t == t;
    } else {
      assert (s + t)[1..] == s[1..] + t;
      KindAtConcat(s[1..], t, o, b);
    }
  }

  lemma {:induction false} KindAtCovered(s: seq<Lock>, i: nat, o: Owner, b: int)
    requires Canonical(s) && i < |s| && Covers(s[i], o, b)
    ensures KindAt(s, o, b) == s[i].kind
  {
    if i != 0 {
      assert Apart(s[0], s[i]);
      KindAtCovered(s[1..], i - 1, o, b);
    }
  }

  lemma {:induction false} KindAtUncovered(s: seq<Lock>, o: Owner, b: int)
    requires forall i :: 0 <= i < |s| ==> !Covers(s[i], o, b)
    ensures KindAt(s, o, b) == Unlock
  {
    if s != [] {
      KindAtUncovered(s[1..], o, b);
    }
  }

  /** Where the first lock of o over b is. */
  function CoveringLock(s: seq<Lock>, o: Owner, b: int): (i: nat)
    requires KindAt(s, o, b) != Unlock
    ensures i < |s| && Covers(s[i], o, b) && s[i].kind == KindAt(s, o, b)
  {
    if Covers(s[0], o, b) then 0 else 1 + CoveringLock(s[1..], o, b)
  }

  /** s with the slice [i..j) replaced by t. */
  function Splice(s: seq<Lock>, i: nat, j: nat, t: seq<Lock>): seq<Lock>
    requires i <= j <= |s|
  {
    s[..i] + t + s[j..]
  }

  lemma KindAtSplice(s: seq<Lock>, i: nat, j: nat, t: seq<Lock>, o: Owner, b: int)
    requires i <= j <= |s|
    requires forall k :: 0 <= k < |s| ==> s[k].kind != Unlock
    requires forall k :: 0 <= k < |t| ==> t[k].kind != Unlock
    requires KindAt(t, o, b) == KindAt(s[i..j], o, b)
    ensures KindAt(Splice(s, i, j, t), o, b) == KindAt(s, o, b)
  {
    assert s[..i] + t + s[j..] == s[..i] + (t + s[j..]);
    assert s == s[..i] + (s[i..j] + s[j..]);
    KindAtConcat(s[..i], t + s[j..], o, b);
    KindAtConcat(t, s[j..], o, b);
    KindAtConcat(s[..i], s[i..j] + s[j..], o, b);
    KindAtConcat(s[i..j], s[j..], o, b);
  }

  /** What the list would show if cur were laid over it: kept constant while the list is being rewritten. */
  function Overlay(s: seq<Lock>, cur: Lock, o: Owner, b: int): LockType
  {
    if Covers(cur, o, b) then cur.kind else KindAt(s, o, b)
  }

  /** The rewriting of before for req stands at s, with cur (grown from req) still to be laid over it. */
  ghost predicate Pending(before: seq<Lock>, req: Lock, s: seq<Lock>, cur: Lock)
  {
    forall o: Owner, b: int :: Overlay(s, cur, o, b) == Overlay(before, req, o, b)
  }

  /** The state of the rewriting loop: everything before position i is finished. */
  ghost predicate Sweep(before: seq<Lock>, req: Lock, s: seq<Lock>, i: int, cur: Lock)
  {
    && 0 <= i <= |s| && Canonical(s) && InRange(cur)
    && cur.kind == req.kind && cur.owner == req.owner && cur.start <= req.start && req.end <= cur.end
    && (forall j :: 0 <= j < i ==> Apart(s[j], cur))
    && Pending(before, req, s, cur)
  }

  /** The smallest interval that contains both. */
  function Hull(cur: Lock, l: Lock): Lock
  {
    cur.(start := if l.start < cur.start then l.start else cur.start,
         end := if cur.end < l.end then l.end else cur.end)
  }

  lemma RemoveMerged(before: seq<Lock>, req: Lock, s: seq<Lock>, i: nat, cur: Lock, grown: Lock)
    requires Sweep(before, req, s, i, cur) && i < |s| && s[i].owner == cur.owner
    requires
      || (s[i].kind == cur.kind && s[i].end >= cur.start - 1 && cur.end >= s[i].start - 1 && grown == Hull(cur, s[i]))
      || (cur.start <= s[i].start && s[i].end <= cur.end && grown == cur)
    ensures Sweep(before, req, Splice(s, i, i + 1, []), i, grown)
  {
    var r := Splice(s, i, i + 1, []);
    forall o: Owner, b: int ensures Overlay(r, grown, o, b) == Overlay(before, req, o, b) {
      assert Overlay(s, cur, o, b) == Overlay(before, req, o, b);
      if Covers(s[i], o, b) {
        KindAtCovered(s, i, o, b);
      } else {
        KindAtSplice(s, i, i + 1, [], o, b);
      }
    }
    forall j | 0 <= j < i ensures Apart(r[j], grown) {
      assert Apart(s[j], cur) && Apart(s[j], s[i]);
    }
  }

  /** Nothing from position i on touches cur. */
  ghost predicate Ahead(s: seq<Lock>, i: int, cur: Lock)
  {
    0 <= i <= |s| && forall j :: i <= j < |s| ==> Apart(cur, s[j])
  }

  lemma FollowersAhead(s: seq<Lock>, i: nat, cur: Lock)
    requires Canonical(s) && i < |s| && s[i].owner == cur.owner && cur.end < s[i].start && Apart(cur, s[i])
    ensures Ahead(s, i, cur)
  {
    forall j | i < j < |s| ensures Apart(cur, s[j]) {
      assert Apart(s[i], s[j]);
    }
  }

  lemma Advance(before: seq<Lock>, req: Lock, s: seq<Lock>, i: nat, cur: Lock)
    requires Sweep(before, req, s, i, cur) && i < |s| && Apart(s[i], cur)
    ensures Sweep(before, req, s, i + 1, cur)
  {
  }

  /** t is what remains of the interval l when the bytes of cur are taken out. */
  ghost predicate Remains(l: Lock, cur: Lock, t: seq<Lock>)
  {
    && Canonical(t) && |t| > 0
    && (forall k :: 0 <= k < |t| ==>
          t[k].owner == l.owner && t[k].kind == l.kind && l.start <= t[k].start && t[k].end <= l.end)
    && (forall o: Owner, b: int :: !Covers(cur, o, b) ==> KindAt(t, o, b) == KindAt([l], o, b))
  }

  lemma SpliceCanonical(s: seq<Lock>, i: nat, cur: Lock, t: seq<Lock>)
    requires Canonical(s) && i < |s| && Remains(s[i], cur, t)
    ensures Canonical(Splice(s, i, i + 1, t))
  {
    var r := Splice(s, i, i + 1, t);
    forall x, y | 0 <= x < y < |r| ensures Apart(r[x], r[y]) {
      var x' := if x < i then x else if x < i + |t| then i else x - |t| + 1;
      var y' := if y < i then y else if y < i + |t| then i else y - |t| + 1;
      assert x' < y' ==> Apart(s[x'], s[y']);
      assert i <= x && y < i + |t| ==> Apart(t[x - i], t[y - i]);
    }
  }

  lemma Rewrite(before: seq<Lock>, req: Lock, s: seq<Lock>, i: nat, cur: Lock, t: seq<Lock>)
    requires Sweep(before, req, s, i, cur) && i < |s| && Remains(s[i], cur, t)
    ensures Sweep(before, req, Splice(s, i, i + 1, t), i, cur)
  {
    var r := Splice(s, i, i + 1, t);
    SpliceCanonical(s, i, cur, t);
    forall o: Owner, b: int ensures Overlay(r, cur, o, b) == Overlay(before, req, o, b) {
      assert Overlay(s, cur, o, b) == Overlay(before, req, o, b);
      if !Covers(cur, o, b) {
        assert s[i..i + 1] == [s[i]];
        KindAtSplice(s, i, i + 1, t, o, b);
      }
    }
  }

  lemma TrimTail(before: seq<Lock>, req: Lock, s: seq<Lock>, i: nat, cur: Lock, l: Lock)
    requires Sweep(before, req, s, i, cur) && i < |s| && l == s[i].(end := cur.start - 1)
    requires s[i].owner == cur.owner && s[i].kind != cur.kind && s[i].start < cur.start <= s[i].end <= cur.end
    ensures Sweep(before, req, Splice(s, i, i + 1, [l]), i + 1, cur)
  {
    Rewrite(before, req, s, i, cur, [l]);
    Advance(before, req, Splice(s, i, i + 1, [l]), i, cur);
  }

  lemma TrimHead(before: seq<Lock>, req: Lock, s: seq<Lock>, i: nat, cur: Lock, l: Lock)
    requires Sweep(before, req, s, i, cur) && i < |s| && l == s[i].(start := cur.end + 1)
    requires s[i].owner == cur.owner && s[i].kind != cur.kind && cur.start <= s[i].start <= cur.end < s[i].end
    ensures Sweep(before, req, Splice(s, i, i + 1, [l]), i, cur)
    ensures Ahead(Splice(s, i, i + 1, [l]), i, cur)
  {
    Rewrite(before, req, s, i, cur, [l]);
    FollowersAhead(Splice(s, i, i + 1, [l]), i, cur);
  }

  lemma SplitAround(before: seq<Lock>, req: Lock, s: seq<Lock>, i: nat, cur: Lock, left: Lock, right: Lock)
    requires Sweep(before, req, s, i, cur) && i < |s|
    requires left == s[i].(end := cur.start - 1) && right == s[i].(start := cur.end + 1)
    requires s[i].owner == cur.owner && s[i].kind != cur.kind && s[i].start < cur.start && cur.end < s[i].end
    ensures Sweep(before, req, Splice(s, i, i + 1, [left, right]), i + 1, cur)
  {
    forall o: Owner, b: int ensures !Covers(cur, o, b) ==> KindAt([left, right], o, b) == KindAt([s[i]], o, b) {
      assert [left, right] == [left] + [right];
      KindAtConcat([left], [right], o, b);
    }
    Rewrite(before, req, s, i, cur, [left, right]);
    Advance(before, req, Splice(s, i, i + 1, [left, right]), i, cur);
  }

  lemma FinishInsert(before: seq<Lock>, req: Lock, s: seq<Lock>, i: nat, cur: Lock)
    requires Sweep(before, req, s, i, cur) && cur.kind != Unlock
    requires Ahead(s, i, cur)
    ensures Canonical(Splice(s, i, i, [cur]))
    ensures Overlaid(before, req, Splice(s, i, i, [cur]))
  {
    var r := Splice(s, i, i, [cur]);
    forall x, y | 0 <= x < y < |r| ensures Apart(r[x], r[y]) {
      var x' := if x <= i then x else x - 1;
      var y' := if y <= i then y else y - 1;
      assert x' < y' && y' < |s| ==> Apart(s[x'], s[y']);
    }
    forall o: Owner, b: int ensures KindAt(r, o, b) == if Covers(req, o, b) then req.kind else KindAt(before, o, b) {
      assert Overlay(s, cur, o, b) == Overlay(before, req, o, b);
      if Covers(cur, o, b) {
        KindAtCovered(r, i, o, b);
      } else {
        KindAtSplice(s, i, i, [cur], o, b);
      }
    }
  }

  lemma FinishUnlock(before: seq<Lock>, req: Lock, s: seq<Lock>, i: nat, cur: Lock)
    requires Sweep(before, req, s, i, cur) && cur.kind == Unlock
    requires Ahead(s, i, cur)
    ensures Overlaid(before, req, s)
  {
    forall o: Owner, b: int ensures KindAt(s, o, b) == if Covers(req, o, b) then req.kind else KindAt(before, o, b) {
      assert Overlay(s, cur, o, b) == Overlay(before, req, o, b);
      if Covers(cur, o, b) {
        KindAtUncovered(s, o, b);
      }
    }
  }

  lemma FinishContained(before: seq<Lock>, req: Lock, s: seq<Lock>, i: nat, cur: Lock)
    requires Sweep(before, req, s, i, cur) && i < |s|
    requires s[i].owner == cur.owner && s[i].kind == cur.kind && s[i].start <= cur.start && cur.end <= s[i].end
    ensures Overlaid(before, req, s)
  {
    forall o: Owner, b: int ensures KindAt(s, o, b) == if Covers(req, o, b) then req.kind else KindAt(before, o, b) {
      assert Overlay(s, cur, o, b) == Overlay(before, req, o, b);
      if Covers(cur, o, b) {
        KindAtCovered(s, i, o, b);
      }
    }
  }

  // ----- what the pointwise effect and the canonical form are worth -----

  lemma Separated(s: seq<Lock>, i: nat, k: nat)
    requires Canonical(s) && i < |s| && k < |s| && i != k
    requires s[i].owner == s[k].owner && s[i].kind == s[k].kind
    ensures s[i].end + 1 < s[k].start || s[k].end + 1 < s[i].start
  {
    assert Apart(s[if k < i then k else i], s[if k < i then i else k]);
  }

  /** Where two canonical lists show the same, a lock of one lies within the lock of the other that it meets. */
  lemma LiesWithin(s: seq<Lock>, i: nat, t: seq<Lock>, j: nat, b: int)
    requires Canonical(s) && Canonical(t) && i < |s| && j < |t|
    requires s[i].owner == t[j].owner && s[i].kind == t[j].kind
    requires s[i].start <= b <= s[i].end && t[j].start <= b <= t[j].end
    requires forall x :: KindAt(s, s[i].owner, x) == KindAt(t, s[i].owner, x)
    ensures s[i].start <= t[j].start && t[j].end <= s[i].end
  {
    var o := s[i].owner;
    if t[j].start < s[i].start {
      KindAtCovered(t, j, o, s[i].start - 1);
      Separated(s, i, CoveringLock(s, o, s[i].start - 1));
    }
    if s[i].end < t[j].end {
      KindAtCovered(t, j, o, s[i].end + 1);
      Separated(s, i, CoveringLock(s, o, s[i].end + 1));
    }
  }

  /**
    Canonical lists have no freedom left: two of them that show the same locks
    to owner o hold the very same intervals for o. With LocksInsert's contract,
    this fixes the resulting intervals of every owner completely.
   */
  lemma CanonicalUnique(s: seq<Lock>, t: seq<Lock>, i: nat)
    requires Canonical(s) && Canonical(t) && i < |s|
    requires forall b :: KindAt(s, s[i].owner, b) == KindAt(t, s[i].owner, b)
    ensures exists j :: 0 <= j < |t| && t[j].(pid := 0) == s[i].(pid := 0)
  {
    var l := s[i];
    KindAtCovered(s, i, l.owner, l.start);
    var j := CoveringLock(t, l.owner, l.start);
    LiesWithin(s, i, t, j, l.start);
    LiesWithin(t, j, s, i, l.start);
  }

  lemma StepKeepsExclusive(before: seq<Lock>, req: Lock, after: seq<Lock>)
    requires Exclusive(before) && Overlaid(before, req, after)
    requires req.kind == Unlock || !Conflicting(before, req)
    ensures Exclusive(after)
  {
    forall o: Owner, p: Owner, b: int | o != p && KindAt(after, o, b) == WriteLock
      ensures KindAt(after, p, b) == Unlock
    {
      if req.start <= b <= req.end && req.kind != Unlock {
        assert o != req.owner ==> !(KindAt(before, o, b) == WriteLock);
        assert p != req.owner && req.kind == WriteLock ==> KindAt(before, p, b) == Unlock;
      }
    }
  }

  /** Requests reqs, one after the other, take the empty list through the lists of run. */
  ghost predicate LockRun(run: seq<seq<Lock>>, reqs: seq<Lock>)
  {
    && |run| == |reqs| + 1
    && run[0] == []
    && forall k :: 0 <= k < |reqs| ==> Overlaid(run[k], reqs[k], run[k + 1])
  }

  /** In a run that sets only conflict-free locks, or clears, no byte ever has two owners with a writer among them. */
  lemma {:induction false} RunKeepsExclusive(run: seq<seq<Lock>>, reqs: seq<Lock>, n: nat)
    requires LockRun(run, reqs) && n < |run|
    requires forall k :: 0 <= k < |reqs| ==> reqs[k].kind == Unlock || !Conflicting(run[k], reqs[k])
    ensures Exclusive(run[n])
  {
    if n > 0 {
      RunKeepsExclusive(run, reqs, n - 1);
      StepKeepsExclusive(run[n - 1], reqs[n - 1], run[n]);
    }
  }

  // ----- struct flock -----

  datatype Flock = Flock(kind: LockType, start: int, len: int, pid: int)

  /** What the kernel sends: a non-negative range whose last byte is an offset. */
  predicate KernelRange(fl: Flock)
  {
    0 <= fl.start <= OFFSET_MAX && 0 <= fl.len && fl.start + fl.len - 1 <= OFFSET_MAX
  }

  function FlockToLock(fl: Flock, owner: Owner): (l: Lock)
    requires KernelRange(fl)
    ensures InRange(l)
  {
    Lock(fl.kind, fl.start, if fl.len != 0 then fl.start + fl.len - 1 else OFFSET_MAX, fl.pid, owner)
  }

  function LockToFlock(l: Lock): (fl: Flock)
    requires InRange(l)
    ensures KernelRange(fl)
  {
    Flock(l.kind, l.start, if l.end == OFFSET_MAX then 0 else l.end - l.start + 1, l.pid)
  }

  /** Type, start and process are taken over as they are, and a byte b is in the range of both or of none. */
  lemma FlockFields(l: Lock, fl: Flock, b: int)
    requires InRange(l) && KernelRange(fl)
    ensures FlockToLock(fl, l.owner).kind == fl.kind && LockToFlock(l).kind == l.kind
    ensures FlockToLock(fl, l.owner).start == fl.start && LockToFlock(l).start == l.start
    ensures FlockToLock(fl, l.owner).pid == fl.pid && LockToFlock(l).pid == l.pid
    ensures FlockToLock(fl, l.owner).owner == l.owner
    ensures fl.start <= b <= OFFSET_MAX ==>
              (b <= FlockToLock(fl, l.owner).end <==> fl.len == 0 || b - fl.start < fl.len)
    ensures l.start <= b <= OFFSET_MAX ==>
              (b <= l.end <==> LockToFlock(l).len == 0 || b - l.start < LockToFlock(l).len)
  {
  }

  /** Locks survive the trip through struct flock; a flock does unless it names the last byte by a length. */
  lemma FlockRoundTrip(l: Lock, fl: Flock)
    requires InRange(l) && KernelRange(fl)
    ensures FlockToLock(LockToFlock(l), l.owner) == l
    ensures LockToFlock(FlockToLock(fl, l.owner)) == fl <==> (fl.len == 0 || fl.start + fl.len - 1 < OFFSET_MAX)
  {
  }

  // ----- who reports a lock -----

  /** l has owner, type and process of a lock of s. */
  ghost predicate PieceOf(s: seq<Lock>, l: Lock)
  {
    exists m {:trigger m in s} :: m in s && m.kind == l.kind && m.owner == l.owner && m.pid == l.pid
  }

  ghost predicate Pieces(before: seq<Lock>, s: seq<Lock>)
  {
    forall l {:trigger PieceOf(before, l)} :: l in s ==> PieceOf(before, l)
  }

  /** Every lock goes on reporting the process it did, but those of the request report the process of the request. */
  ghost predicate Reported(before: seq<Lock>, req: Lock, after: seq<Lock>)
  {
    forall l {:trigger PieceOf(before, l)} :: l in after ==>
      PieceOf(before, l) || (l.kind == req.kind && l.owner == req.owner && l.pid == req.pid)
  }

  lemma PiecesSplice(before: seq<Lock>, s: seq<Lock>, i: nat, t: seq<Lock>)
    requires Pieces(before, s) && i < |s|
    requires forall l :: l in t ==> l.kind == s[i].kind && l.owner == s[i].owner && l.pid == s[i].pid
    ensures Pieces(before, Splice(s, i, i + 1, t))
  {
    assert s[i] in s;
    assert PieceOf(before, s[i]);
    forall l | l in Splice(s, i, i + 1, t) ensures PieceOf(before, l) {
      if l in t {
        var m :| m in before && m.kind == s[i].kind && m.owner == s[i].owner && m.pid == s[i].pid;
        assert m in before;
      } else {
        assert l in s;
      }
    }
  }

  lemma PiecesAndRequest(before: seq<Lock>, req: Lock, s: seq<Lock>, i: nat, cur: Lock)
    requires Pieces(before, s) && i <= |s| && cur.kind == req.kind && cur.owner == req.owner && cur.pid == req.pid
    ensures Reported(before, req, Splice(s, i, i, [cur]))
  {
    forall l | l in Splice(s, i, i, [cur])
      ensures PieceOf(before, l) || (l.kind == req.kind && l.owner == req.owner && l.pid == req.pid)
    {
      assert l in s || l == cur;
    }
  }

  /** The part of struct node that holds the locks of one inode. */
  class LockedNode {
    var locks: seq<Lock>

    constructor ()
      ensures locks == []
    {
      locks := [];
    }

    /** The first lock of another owner that stands in the way of req, if any. */
    method LocksConflict(req: Lock) returns (found: bool, l: Lock)
      requires Canonical(locks) && InRange(req)
      ensures found <==> Conflicting(locks, req)
      ensures found ==> l in locks && l.owner != req.owner && req.start <= l.end && l.start <= req.end
                        && (l.kind == WriteLock || req.kind == WriteLock)
    {
      l := req;
      found := false;
      var i := 0;
      while i < |locks|
        invariant 0 <= i <= |locks|
        invariant forall j :: 0 <= j < i ==>
          !(locks[j].owner != req.owner && req.start <= locks[j].end && locks[j].start <= req.end
            && (locks[j].kind == WriteLock || req.kind == WriteLock))
      {
        l := locks[i];
        if l.owner != req.owner && req.start <= l.end && l.start <= req.end
           && (l.kind == WriteLock || req.kind == WriteLock) {
          found := true;
          KindAtCovered(locks, i, l.owner, if l.start < req.start then req.start else l.start);
          return;
        }
        i := i + 1;
      }
      if Conflicting(locks, req) {
        var o: Owner, b: int :| o != req.owner && req.start <= b <= req.end && KindAt(locks, o, b) != Unlock
                                && (KindAt(locks, o, b) == WriteLock || req.kind == WriteLock);
        var j := CoveringLock(locks, o, b);
      }
    }

    /**
      Sets the range of req to req.kind for its owner. memory says whether the
      two allocations succeed; ok is false exactly where the code answers ENOLCK.
     */
    method LocksInsert(req: Lock, memory: bool) returns (ok: bool)
      requires Canonical(locks) && InRange(req)
      modifies this
      ensures ok <==> memory || (req.kind == Unlock && req.start == 0 && req.end == OFFSET_MAX)
      ensures !ok ==> locks == old(locks)
      ensures Canonical(locks)
      ensures ok ==> Overlaid(old(locks), req, locks)
      ensures Reported(old(locks), req, locks)
    {
      var haveNew1, haveNew2 := false, false;
      if req.kind != Unlock || req.start != 0 || req.end != OFFSET_MAX {
        haveNew1, haveNew2 := memory, memory;
        if !memory {
          return false;
        }
      }
      var cur := req;
      var i := 0;
      while i < |locks|
        invariant Sweep(old(locks), req, locks, i, cur)
        invariant Pieces(old(locks), locks) && cur.pid == req.pid && cur.kind == req.kind
          && cur.owner == req.owner
        invariant req.kind != Unlock ==> haveNew1
        invariant haveNew2 || (cur.kind == Unlock && cur.start == 0 && cur.end == OFFSET_MAX)
                  || (i < |locks| && locks[i].owner == cur.owner && locks[i].kind != cur.kind
                    && cur.end < locks[i].start)
        decreases |locks| - i, haveNew2
      {
        var l := locks[i];
        if l.owner != cur.owner {
          Advance(old(locks), req, locks, i, cur);
          i := i + 1;
        } else if cur.kind == l.kind {
          if l.end < cur.start - 1 {
            Advance(old(locks), req, locks, i, cur);
            i := i + 1;
          } else if cur.end < l.start - 1 {
            FollowersAhead(locks, i, cur);
            break;
          } else if l.start <= cur.start && cur.end <= l.end {
            FinishContained(old(locks), req, locks, i, cur);
            return true;
          } else {
            RemoveMerged(old(locks), req, locks, i, cur, Hull(cur, l));
            if l.start < cur.start {
              cur := cur.(start := l.start);
            }
            if cur.end < l.end {
              cur := cur.(end := l.end);
            }
            PiecesSplice(old(locks), locks, i, []);
            locks := Splice(locks, i, i + 1, []);
          }
        } else {
          if l.end < cur.start {
            Advance(old(locks), req, locks, i, cur);
            i := i + 1;
          } else if cur.end < l.start {
            FollowersAhead(locks, i, cur);
            break;
          } else if cur.start <= l.start && l.end <= cur.end {
            RemoveMerged(old(locks), req, locks, i, cur, cur);
            PiecesSplice(old(locks), locks, i, []);
            locks := Splice(locks, i, i + 1, []);
          } else if l.end <= cur.end {
            l := l.(end := cur.start - 1);
            TrimTail(old(locks), req, locks, i, cur, l);
            PiecesSplice(old(locks), locks, i, [l]);
            locks := Splice(locks, i, i + 1, [l]);
            i := i + 1;
          } else if cur.start <= l.start {
            l := l.(start := cur.end + 1);
            TrimHead(old(locks), req, locks, i, cur, l);
            PiecesSplice(old(locks), locks, i, [l]);
            locks := Splice(locks, i, i + 1, [l]);
            break;
          } else {
            assert haveNew2;  // never a NULL newl2
            var right := l.(start := cur.end + 1);
            l := l.(end := cur.start - 1);
            SplitAround(old(locks), req, locks, i, cur, l, right);
            PiecesSplice(old(locks), locks, i, [l, right]);
            locks := Splice(locks, i, i + 1, [l, right]);
            haveNew2 := false;
            i := i + 1;
          }
        }
      }
      if cur.kind != Unlock {
        assert haveNew1;  // never a NULL newl1
        FinishInsert(old(locks), req, locks, i, cur);
        PiecesAndRequest(old(locks), req, locks, i, cur);
        locks := Splice(locks, i, i, [cur]);
      } else {
        FinishUnlock(old(locks), req, locks, i, cur);
      }
      return true;
    }
  }
}
