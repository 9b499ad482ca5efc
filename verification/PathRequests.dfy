/**
  One attempt to lock a path, or two paths at once (lib/fuse.c, try_get_path
  and try_get_path2), and the question whether a waiting request could be
  granted.
 */
module PathRequests {
  import opened Wrappers
  import opened PathTree
  import opened PathLocks

  /** The arguments of try_get_path: the node, the last name, and whether the named child is to be written. */
  datatype Leg = Leg(node: NodeId, name: Option<string>, write: bool)

  datatype Request = One(leg: Leg) | Two(leg1: Leg, leg2: Leg)

  /** Ok, EAGAIN, ESTALE, ENOMEM */
  datatype Err = Ok | Again | Stale | NoMemory

  /** How many allocations succeed in each of the two attempts. */
  datatype Memory = Memory(first: nat, second: nat)

  /** The words afterwards, the outcome, and the paths locked. */
  datatype Attempt = Attempt(word: map<NodeId, int>, err: Err, holds: seq<Hold>)

  predicate LegOk(t: Tree, leg: Leg)
  {
    leg.node in t.up && (leg.write ==> leg.name.Some?)
  }

  predicate RequestOk(t: Tree, req: Request)
  {
    match req
    case One(l) => LegOk(t, l)
    case Two(l1, l2) => LegOk(t, l1) && LegOk(t, l2)
  }

  /** The child to be written, if it is known. */
  function Target(t: Tree, leg: Leg): Option<NodeId>
    requires LegOk(t, leg)
  {
    if leg.write then Lookup(t, leg.node, leg.name.value) else None
  }

  function HoldOf(t: Tree, leg: Leg): Hold
    requires LegOk(t, leg)
  {
    Hold(leg.node, Target(t, leg))
  }

  function FirstBusy(word: map<NodeId, int>, body: seq<NodeId>): (j: nat)
    ensures j <= |body|
    ensures forall i :: 0 <= i < j ==> !(body[i] in word && word[body[i]] < 0)
    ensures j < |body| ==> body[j] in word && word[body[j]] < 0
  {
    if body == [] then 0
    else if body[0] in word && word[body[0]] < 0 then 0
    else 1 + FirstBusy(word, body[1..])
  }

  function Names(leg: Leg): nat
  {
    if leg.name.Some? then 1 else 0
  }

  function Marked(v: int): int
  {
    if v > 0 then v + TREELOCK_WAIT_OFFSET else v
  }

  /** The outcome of the walk from n to the root, if `left` more names can be put in front of the path. */
  function WalkErr(t: Tree, word: map<NodeId, int>, n: NodeId, left: nat): Err
    requires n in t.up
  {
    var body := Body(t, n);
    var j := FirstBusy(word, body);
    if left < (if j < |body| then j + 1 else j) then NoMemory
    else if j < |body| then Again
    else if !Connected(t, n) then Stale
    else Ok
  }

  /** try_get_path; memory allocations after the first `memory` fail. */
  function TryLeg(t: Tree, word: map<NodeId, int>, leg: Leg, memory: nat): Attempt
    requires LegOk(t, leg)
  {
    var w := Target(t, leg);
    if memory < 1 + Names(leg) then
      Attempt(word, NoMemory, [])
    else if w.Some? && w.value in word && word[w.value] != 0 then
      Attempt(word[w.value := Marked(word[w.value])], Again, [])
    else
      var err := WalkErr(t, Put(word, w, TREELOCK_WRITE), leg.node, memory - 1 - Names(leg));
      if err == Ok then Attempt(Locked(t, word, HoldOf(t, leg)), Ok, [HoldOf(t, leg)])
      else Attempt(word, err, [])
  }

  /** try_get_path2: the second path is tried with the first one locked, and the first is given back if it fails. */
  function TryRequest(t: Tree, word: map<NodeId, int>, req: Request, memory: Memory): Attempt
    requires RequestOk(t, req)
  {
    match req
    case One(leg) => TryLeg(t, word, leg, memory.first)
    case Two(leg1, leg2) =>
      var a := TryLeg(t, word, leg1, memory.first);
      if a.err != Ok then a
      else
        var b := TryLeg(t, a.word, leg2, memory.second);
        if b.err == Ok then Attempt(b.word, Ok, a.holds + b.holds)
        else Attempt(Unlocked(t, b.word, HoldOf(t, leg1)), b.err, [])
  }

  // ----- all or nothing -----

  /** word' is word with at most some waiting marks added at nodes that are read and unmarked. */
  ghost predicate MarksAdded(word: map<NodeId, int>, word': map<NodeId, int>)
  {
    && word'.Keys == word.Keys
    && forall n :: n in word ==> word'[n] == word[n] || (word[n] > 0 && word'[n] == word[n] + TREELOCK_WAIT_OFFSET)
  }

  lemma TargetFacts(t: Tree, leg: Leg)
    requires WellFormed(t) && LegOk(t, leg)
    ensures Target(t, leg).Some? ==>
      var w := Target(t, leg).value;
      w in t.up && w != ROOT && w !in t.up[leg.node] && w in t.link && t.link[w] == Link(leg.node, leg.name.value)
  {
    if Target(t, leg).Some? {
      var w := Target(t, leg).value;
      assert EntryOk(t, Link(leg.node, leg.name.value));
      assert NodeOk(t, w);
      if w in t.up[leg.node] {
        var k :| 0 <= k < |t.up[leg.node]| && t.up[leg.node][k] == w;
        assert t.up[w][k + 1] == w;
        WalkDistinct(t, w, 0, k + 1);
      }
    }
  }

  lemma BodyInTree(t: Tree, n: NodeId)
    requires WellFormed(t) && n in t.up
    ensures forall m :: m in Body(t, n) ==> m in t.up
  {
    forall m | m in Body(t, n) ensures m in t.up {
      var k :| 0 <= k < |t.up[n]| && t.up[n][k] == m;
      WalkStep(t, n, k);
    }
  }

  /** One attempt either locks the whole path, or changes nothing but at most a waiting mark. */
  lemma LegAllOrNothing(t: Tree, word: map<NodeId, int>, leg: Leg, memory: nat)
    requires WellFormed(t) && LegOk(t, leg) && word.Keys == t.up.Keys
    ensures var a := TryLeg(t, word, leg, memory);
      if a.err == Ok then
        Free(t, word, HoldOf(t, leg)) && a.word == Locked(t, word, HoldOf(t, leg)) && a.holds == [HoldOf(t, leg)]
      else MarksAdded(word, a.word) && a.holds == []
  {
    TargetFacts(t, leg);
    BodyInTree(t, leg.node);
  }

  lemma UndoFirst(t: Tree, word: map<NodeId, int>, hold: Hold, word': map<NodeId, int>)
    requires WellFormed(t) && hold.node in t.up && word.Keys == t.up.Keys && Free(t, word, hold)
    requires MarksAdded(Locked(t, word, hold), word')
    ensures MarksAdded(word, Unlocked(t, word', hold))
  {
  }

  lemma RequestAllOrNothing(t: Tree, word: map<NodeId, int>, req: Request, memory: Memory)
    requires WellFormed(t) && RequestOk(t, req) && word.Keys == t.up.Keys
    ensures var a := TryRequest(t, word, req, memory);
      a.err != Ok ==> MarksAdded(word, a.word) && a.holds == []
    ensures var a := TryRequest(t, word, req, memory);
      a.err == Ok && req.One? ==>
        var h := HoldOf(t, req.leg);
        Free(t, word, h) && a.word == Locked(t, word, h) && a.holds == [h]
    ensures var a := TryRequest(t, word, req, memory);
      a.err == Ok && req.Two? ==>
        var h1, h2 := HoldOf(t, req.leg1), HoldOf(t, req.leg2);
        var mid := Locked(t, word, h1);
        Free(t, word, h1) && Free(t, mid, h2) && a.word == Locked(t, mid, h2) && a.holds == [h1, h2]
  {
    match req
    case One(leg) =>
      LegAllOrNothing(t, word, leg, memory.first);
    case Two(leg1, leg2) =>
      LegAllOrNothing(t, word, leg1, memory.first);
      var a := TryLeg(t, word, leg1, memory.first);
      if a.err == Ok {
        LegAllOrNothing(t, a.word, leg2, memory.second);
        var b := TryLeg(t, a.word, leg2, memory.second);
        if b.err != Ok {
          UndoFirst(t, word, HoldOf(t, leg1), b.word);
        }
      }
  }

  // ----- whether a waiting request could be granted -----

  ghost predicate LegBusy(t: Tree, word: map<NodeId, int>, leg: Leg)
    requires LegOk(t, leg)
  {
    || (Target(t, leg).Some? && Target(t, leg).value in word && word[Target(t, leg).value] != 0)
    || (exists n :: n in Body(t, leg.node) && n in word && word[n] < 0)
  }

  /** With memory to spare, an attempt would still answer EAGAIN. */
  ghost predicate Refused(t: Tree, word: map<NodeId, int>, req: Request)
    requires RequestOk(t, req)
  {
    match req
    case One(leg) => LegBusy(t, word, leg)
    case Two(leg1, leg2) =>
      || LegBusy(t, word, leg1)
      || (Connected(t, leg1.node) && LegBusy(t, Locked(t, word, HoldOf(t, leg1)), leg2))
  }

  /** word' has everything locked that word has, and perhaps more. */
  ghost predicate Tighter(word: map<NodeId, int>, word': map<NodeId, int>)
  {
    && word'.Keys == word.Keys
    && forall n :: n in word ==> (word[n] != 0 ==> word'[n] != 0) && (word[n] < 0 ==> word'[n] < 0)
  }

  lemma LegRefusedExactly(t: Tree, word: map<NodeId, int>, leg: Leg, memory: nat)
    requires WellFormed(t) && LegOk(t, leg) && word.Keys == t.up.Keys
    ensures var a := TryLeg(t, word, leg, memory);
      && (a.err == Again ==> LegBusy(t, word, leg))
      && (LegBusy(t, word, leg) ==> a.err == Again || a.err == NoMemory)
      && (!LegBusy(t, word, leg) && !Connected(t, leg.node) ==> a.err == Stale || a.err == NoMemory)
      && (a.err == Ok ==> Connected(t, leg.node))
  {
    TargetFacts(t, leg);
    BodyInTree(t, leg.node);
    var body := Body(t, leg.node);
    var start := Put(word, Target(t, leg), TREELOCK_WRITE);
    var j := FirstBusy(start, body);
    if n :| n in body && word[n] < 0 {
      assert start[n] < 0;
      var i :| 0 <= i < |body| && body[i] == n;
      assert j <= i;
    }
    if j < |body| {
      assert word[body[j]] < 0;
    }
  }

  /** An attempt answers EAGAIN only if the request is refused, and a refused request is never granted. */
  lemma RefusedExactly(t: Tree, word: map<NodeId, int>, req: Request, memory: Memory)
    requires WellFormed(t) && RequestOk(t, req) && word.Keys == t.up.Keys
    ensures TryRequest(t, word, req, memory).err == Again ==> Refused(t, word, req)
    ensures Refused(t, word, req) ==>
      TryRequest(t, word, req, memory).err == Again || TryRequest(t, word, req, memory).err == NoMemory
  {
    match req
    case One(leg) =>
      LegRefusedExactly(t, word, leg, memory.first);
    case Two(leg1, leg2) =>
      LegRefusedExactly(t, word, leg1, memory.first);
      LegAllOrNothing(t, word, leg1, memory.first);
      var a := TryLeg(t, word, leg1, memory.first);
      if a.err == Ok {
        LegRefusedExactly(t, a.word, leg2, memory.second);
      }
  }

  /** Locking more never makes a refused request grantable. */
  lemma RefusedMonotone(t: Tree, word: map<NodeId, int>, word': map<NodeId, int>, req: Request)
    requires WellFormed(t) && RequestOk(t, req) && word.Keys == t.up.Keys
    requires Refused(t, word, req) && Tighter(word, word')
    ensures Refused(t, word', req)
  {
    match req
    case One(leg) =>
    case Two(leg1, leg2) =>
      if LegBusy(t, word, leg1) {
      } else if !LegBusy(t, word', leg1) {
        var h := HoldOf(t, leg1);
        assert Tighter(Locked(t, word, h), Locked(t, word', h)) by {
          forall n | n in word
            ensures (Locked(t, word, h)[n] != 0 ==> Locked(t, word', h)[n] != 0)
            ensures (Locked(t, word, h)[n] < 0 ==> Locked(t, word', h)[n] < 0)
          {
          }
        }
      }
  }

  lemma MarksTighten(s: Sys, word': map<NodeId, int>)
    requires SysOk(s) && MarksAdded(s.word, word')
    ensures Tighter(s.word, word')
  {
    forall n | n in s.word ensures (s.word[n] != 0 ==> word'[n] != 0) && (s.word[n] < 0 ==> word'[n] < 0) {
      assert NodeWordOk(s, n);
    }
  }

  lemma LockingTightens(t: Tree, word: map<NodeId, int>, hold: Hold)
    requires hold.node in t.up && Free(t, word, hold)
    ensures Tighter(word, Locked(t, word, hold))
  {
  }

  /** A failed attempt leaves the words exact. */
  lemma MarksKeepOk(s: Sys, word': map<NodeId, int>)
    requires SysOk(s) && MarksAdded(s.word, word')
    ensures SysOk(s.(word := word'))
  {
    var r := s.(word := word');
    forall h | h in r.holds ensures HoldOk(r, h) {
      assert HoldOk(s, h);
    }
    forall n | n in r.word ensures NodeWordOk(r, n) {
      assert NodeWordOk(s, n);
      assert Readers(r, n) == Readers(s, n) && Writers(r, n) == Writers(s, n);
    }
  }

  // ----- what an attempt does, node by node -----

  /** w is the node that the leg is to write: it has the last name of the path, in its directory. */
  predicate IsNamed(t: Tree, leg: Leg, w: NodeId)
  {
    leg.write && leg.name.Some? && Link(leg.node, leg.name.value) in t.index
    && t.index[Link(leg.node, leg.name.value)] == w
  }

  /** The walk from the directory of the leg passes n before it stops. */
  predicate Passes(t: Tree, leg: Leg, n: NodeId)
    requires leg.node in t.up && |t.up[leg.node]| > 0
  {
    n in t.up[leg.node][..|t.up[leg.node]| - 1]
  }

  /** The node to be written is not free, or a node on the way is written, or about to be. */
  ghost predicate InTheWay(t: Tree, word: map<NodeId, int>, leg: Leg, n: NodeId)
    requires leg.node in t.up && |t.up[leg.node]| > 0
  {
    n in word && ((IsNamed(t, leg, n) && word[n] != 0) || (Passes(t, leg, n) && word[n] < 0))
  }

  /** Memory for a buffer, and for every name of the path. */
  predicate Enough(t: Tree, leg: Leg, memory: nat)
    requires leg.node in t.up
  {
    memory >= (if leg.name.Some? then 1 else 0) + |t.up[leg.node]|
  }

  /** hold is what the leg asked for. */
  ghost predicate HoldFits(t: Tree, leg: Leg, hold: Hold)
  {
    hold.node == leg.node && forall w: NodeId :: hold.writes == Some(w) <==> IsNamed(t, leg, w)
  }

  /** The words when the leg is locked: the named node is written, every node on the way has one reader more. */
  ghost predicate LegLocked(t: Tree, leg: Leg, word: map<NodeId, int>, word': map<NodeId, int>)
    requires leg.node in t.up && |t.up[leg.node]| > 0
  {
    && word'.Keys == word.Keys
    && forall n :: n in word ==>
         if IsNamed(t, leg, n) then word[n] == 0 && word'[n] == TREELOCK_WRITE
         else if Passes(t, leg, n) then word[n] >= 0 && word'[n] == word[n] + 1
         else word'[n] == word[n]
  }

  /** The words when the leg is refused: a node that was to be written and has readers is marked. */
  ghost predicate LegRefused(t: Tree, leg: Leg, word: map<NodeId, int>, word': map<NodeId, int>)
  {
    && word'.Keys == word.Keys
    && forall n :: n in word ==>
         word'[n] == if IsNamed(t, leg, n) && word[n] > 0 then word[n] + TREELOCK_WAIT_OFFSET else word[n]
  }

  lemma LegShape(t: Tree, leg: Leg)
    requires WellFormed(t) && LegOk(t, leg)
    ensures |t.up[leg.node]| > 0 && Body(t, leg.node) == t.up[leg.node][..|t.up[leg.node]| - 1]
    ensures forall w: NodeId :: Target(t, leg) == Some(w) <==> IsNamed(t, leg, w)
    ensures forall w :: IsNamed(t, leg, w) ==> w in t.up && !Passes(t, leg, w)
  {
    assert NodeOk(t, leg.node);
    TargetFacts(t, leg);
  }

  /** try_get_path says EAGAIN exactly if something is in the way; else it locks, if the walk is not cut off. */
  lemma LegOutcome(t: Tree, word: map<NodeId, int>, leg: Leg, memory: nat)
    requires WellFormed(t) && LegOk(t, leg) && word.Keys == t.up.Keys
    ensures |t.up[leg.node]| > 0
    ensures var a := TryLeg(t, word, leg, memory);
      && (Enough(t, leg, memory) ==> a.err != NoMemory)
      && (a.err != NoMemory ==>
           && (a.err == Again <==> exists n :: InTheWay(t, word, leg, n))
           && (a.err == Ok <==> Connected(t, leg.node) && forall n :: !InTheWay(t, word, leg, n)))
  {
    LegShape(t, leg);
    LegRefusedExactly(t, word, leg, memory);
    BodyInTree(t, leg.node);
    BusyIsInTheWay(t, word, leg);
    if Enough(t, leg, memory) {
      EnoughIsEnough(t, word, leg, memory);
    }
  }

  lemma BusyIsInTheWay(t: Tree, word: map<NodeId, int>, leg: Leg)
    requires WellFormed(t) && LegOk(t, leg) && word.Keys == t.up.Keys && |t.up[leg.node]| > 0
    ensures LegBusy(t, word, leg) <==> exists n :: InTheWay(t, word, leg, n)
  {
    LegShape(t, leg);
    if LegBusy(t, word, leg) {
      if Target(t, leg).Some? && word[Target(t, leg).value] != 0 {
        assert IsNamed(t, leg, Target(t, leg).value);
        assert InTheWay(t, word, leg, Target(t, leg).value);
      } else {
        var n :| n in Body(t, leg.node) && n in word && word[n] < 0;
        assert InTheWay(t, word, leg, n);
      }
    }
  }

  lemma EnoughIsEnough(t: Tree, word: map<NodeId, int>, leg: Leg, memory: nat)
    requires WellFormed(t) && LegOk(t, leg) && word.Keys == t.up.Keys && |t.up[leg.node]| > 0
    requires Enough(t, leg, memory)
    ensures TryLeg(t, word, leg, memory).err != NoMemory
  {
    LegShape(t, leg);
  }

  /** What try_get_path leaves behind: a locked path and its hold, or at most a mark for the writer that has to wait. */
  lemma LegDoes(t: Tree, word: map<NodeId, int>, leg: Leg, memory: nat)
    requires WellFormed(t) && LegOk(t, leg) && word.Keys == t.up.Keys
    ensures |t.up[leg.node]| > 0
    ensures var a := TryLeg(t, word, leg, memory);
      && (a.err == Ok ==>
           Connected(t, leg.node) && LegLocked(t, leg, word, a.word) && |a.holds| == 1 && HoldFits(t, leg, a.holds[0]))
      && (a.err == Again ==> LegRefused(t, leg, word, a.word) && a.holds == [])
      && (a.err != Ok && a.err != Again ==> a.word == word && a.holds == [])
  {
    LegShape(t, leg);
    LegAllOrNothing(t, word, leg, memory);
    LegRefusedExactly(t, word, leg, memory);
    BodyInTree(t, leg.node);
  }

  /** Both paths are locked: a node has as many readers more as there are paths through it. */
  ghost predicate BothLocked(t: Tree, leg1: Leg, leg2: Leg, word: map<NodeId, int>, word': map<NodeId, int>)
    requires leg1.node in t.up && |t.up[leg1.node]| > 0 && leg2.node in t.up && |t.up[leg2.node]| > 0
  {
    && word'.Keys == word.Keys
    && forall n :: n in word ==>
         if IsNamed(t, leg1, n) || IsNamed(t, leg2, n) then word[n] == 0 && word'[n] == TREELOCK_WRITE
         else
           && (Passes(t, leg1, n) || Passes(t, leg2, n) ==> word[n] >= 0)
           && word'[n] == word[n] + (if Passes(t, leg1, n) then 1 else 0) + (if Passes(t, leg2, n) then 1 else 0)
  }

  lemma BothLockedIf(t: Tree, leg1: Leg, leg2: Leg, word: map<NodeId, int>, mid: map<NodeId, int>,
                     word': map<NodeId, int>)
    requires leg1.node in t.up && |t.up[leg1.node]| > 0 && leg2.node in t.up && |t.up[leg2.node]| > 0
    requires LegLocked(t, leg1, word, mid) && LegLocked(t, leg2, mid, word')
    ensures BothLocked(t, leg1, leg2, word, word')
    ensures forall n :: n in word && IsNamed(t, leg1, n) ==> !IsNamed(t, leg2, n) && !Passes(t, leg2, n)
  {
  }

  /** The holds are those of the request, in order. */
  ghost predicate HoldsFit(t: Tree, req: Request, holds: seq<Hold>)
  {
    match req
    case One(leg) => |holds| == 1 && HoldFits(t, leg, holds[0])
    case Two(leg1, leg2) => |holds| == 2 && HoldFits(t, leg1, holds[0]) && HoldFits(t, leg2, holds[1])
  }

  ghost predicate RequestLocked(t: Tree, req: Request, word: map<NodeId, int>, word': map<NodeId, int>)
    requires WellFormed(t) && RequestOk(t, req)
  {
    match req
    case One(leg) => LegShape(t, leg); Connected(t, leg.node) && LegLocked(t, leg, word, word')
    case Two(leg1, leg2) =>
      LegShape(t, leg1);
      LegShape(t, leg2);
      Connected(t, leg1.node) && Connected(t, leg2.node) && BothLocked(t, leg1, leg2, word, word')
  }

  /** try_get_path2 likewise: every path of the request is locked, with every node that is to be written, or none is. */
  lemma RequestDoes(t: Tree, word: map<NodeId, int>, req: Request, memory: Memory)
    requires WellFormed(t) && RequestOk(t, req) && word.Keys == t.up.Keys
    ensures var a := TryRequest(t, word, req, memory);
      if a.err == Ok then RequestLocked(t, req, word, a.word) && HoldsFit(t, req, a.holds)
      else MarksAdded(word, a.word) && a.holds == []
  {
    RequestAllOrNothing(t, word, req, memory);
    match req
    case One(leg) => LegDoes(t, word, leg, memory.first);
    case Two(leg1, leg2) =>
      LegDoes(t, word, leg1, memory.first);
      var a := TryLeg(t, word, leg1, memory.first);
      if a.err == Ok {
        LegDoes(t, a.word, leg2, memory.second);
        var b := TryLeg(t, a.word, leg2, memory.second);
        if b.err == Ok {
          BothLockedIf(t, leg1, leg2, word, a.word, b.word);
        }
      }
  }

  predicate AllConnected(t: Tree, req: Request)
    requires WellFormed(t) && RequestOk(t, req)
  {
    match req
    case One(leg) => Connected(t, leg.node)
    case Two(leg1, leg2) => Connected(t, leg1.node) && Connected(t, leg2.node)
  }

  predicate EnoughFor(t: Tree, req: Request, memory: Memory)
    requires RequestOk(t, req)
  {
    match req
    case One(leg) => Enough(t, leg, memory.first)
    case Two(leg1, leg2) => Enough(t, leg1, memory.first) && Enough(t, leg2, memory.second)
  }

  /** With memory enough, an attempt that is not refused locks if the paths are not cut off, and else answers ESTALE. */
  lemma RequestOutcome(t: Tree, word: map<NodeId, int>, req: Request, memory: Memory)
    requires WellFormed(t) && RequestOk(t, req) && word.Keys == t.up.Keys
    ensures var a := TryRequest(t, word, req, memory);
      && (EnoughFor(t, req, memory) ==> a.err != NoMemory)
      && (a.err == Ok ==> AllConnected(t, req))
      && (a.err == Stale ==> !AllConnected(t, req))
  {
    match req
    case One(leg) => LegCutOff(t, word, leg, memory.first);
    case Two(leg1, leg2) =>
      LegCutOff(t, word, leg1, memory.first);
      LegAllOrNothing(t, word, leg1, memory.first);
      var a := TryLeg(t, word, leg1, memory.first);
      if a.err == Ok {
        LegCutOff(t, a.word, leg2, memory.second);
      }
  }

  lemma LegCutOff(t: Tree, word: map<NodeId, int>, leg: Leg, memory: nat)
    requires WellFormed(t) && LegOk(t, leg) && word.Keys == t.up.Keys
    ensures var a := TryLeg(t, word, leg, memory);
      && (Enough(t, leg, memory) ==> a.err != NoMemory)
      && (a.err == Ok ==> Connected(t, leg.node)) && (a.err == Stale ==> !Connected(t, leg.node))
  {
    LegOutcome(t, word, leg, memory);
    LegShape(t, leg);
  }
}
