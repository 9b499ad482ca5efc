/**
  The lock word of a node (struct node: treelock) and what it encodes: how
  many granted requests read through the node, whether one writes it, and
  whether a writer is waiting (lib/fuse.c, unlock_path and try_get_path).
 */
module PathLocks {
  import opened Wrappers
  import opened PathTree

  const INT_MAX: int := 0x7fff_ffff
  const TREELOCK_WRITE: int := -1
  const TREELOCK_WAIT_OFFSET: int := -0x8000_0000

  type HoldId = nat

  /** One locked path: everything from node up to the root is read, and writes (if any) is written. */
  datatype Hold = Hold(node: NodeId, writes: Option<NodeId>)

  datatype Sys = Sys(tree: Tree, word: map<NodeId, int>, holds: map<HoldId, Hold>)

  predicate ReadsThrough(s: Sys, h: HoldId, n: NodeId)
  {
    h in s.holds && s.holds[h].node in s.tree.up && n in Body(s.tree, s.holds[h].node)
  }

  predicate Writes(s: Sys, h: HoldId, n: NodeId)
  {
    h in s.holds && s.holds[h].writes == Some(n)
  }

  function Readers(s: Sys, n: NodeId): set<HoldId>
  {
    set h | h in s.holds && ReadsThrough(s, h, n)
  }

  function Writers(s: Sys, n: NodeId): set<HoldId>
  {
    set h | h in s.holds && Writes(s, h, n)
  }

  /** v is the word of a node with r readers and w writers; a waiting mark needs a reader to be there. */
  predicate WordOk(v: int, r: nat, w: nat)
  {
    && r < INT_MAX
    && (w == 0 || (w == 1 && r == 0))
    && if w == 1 then v == TREELOCK_WRITE else v == r || (r >= 1 && v == TREELOCK_WAIT_OFFSET + r)
  }

  predicate NodeWordOk(s: Sys, n: NodeId)
    requires n in s.word
  {
    WordOk(s.word[n], |Readers(s, n)|, |Writers(s, n)|)
  }

  predicate HoldOk(s: Sys, h: HoldId)
    requires h in s.holds
  {
    && Connected(s.tree, s.holds[h].node)
    && (s.holds[h].writes.Some? ==> s.holds[h].writes.value in s.tree.up && s.holds[h].writes.value != ROOT)
  }

  /** The invariant: the words encode exactly the granted requests. */
  ghost predicate SysOk(s: Sys)
  {
    && WellFormed(s.tree)
    && s.word.Keys == s.tree.up.Keys
    && |s.holds| < INT_MAX
    && (forall h {:trigger HoldOk(s, h)} :: h in s.holds ==> HoldOk(s, h))
    && (forall n {:trigger NodeWordOk(s, n)} :: n in s.word ==> NodeWordOk(s, n))
  }

  // ----- changes of the words -----

  /** Every node on the walk gets one reader more. */
  function Bump(word: map<NodeId, int>, body: seq<NodeId>): map<NodeId, int>
  {
    map n | n in word :: if n in body then word[n] + 1 else word[n]
  }

  function DropOne(v: int): int
  {
    if v - 1 == TREELOCK_WAIT_OFFSET then 0 else v - 1
  }

  /** Every node on the walk loses one reader; the last reader takes a waiting mark with it. */
  function Drop(word: map<NodeId, int>, body: seq<NodeId>): map<NodeId, int>
  {
    map n | n in word :: if n in body then DropOne(word[n]) else word[n]
  }

  function Put(word: map<NodeId, int>, w: Option<NodeId>, v: int): map<NodeId, int>
  {
    if w.Some? then word[w.value := v] else word
  }

  /** What a granted path does to the words. */
  function Locked(t: Tree, word: map<NodeId, int>, hold: Hold): map<NodeId, int>
    requires hold.node in t.up
  {
    Bump(Put(word, hold.writes, TREELOCK_WRITE), Body(t, hold.node))
  }

  /** What unlock_path does to the words. */
  function Unlocked(t: Tree, word: map<NodeId, int>, hold: Hold): map<NodeId, int>
    requires hold.node in t.up
  {
    Drop(Put(word, hold.writes, 0), Body(t, hold.node))
  }

  /** The path may be locked: nobody writes on the way up (or waits to), and the target is free. */
  ghost predicate Free(t: Tree, word: map<NodeId, int>, hold: Hold)
  {
    && Connected(t, hold.node)
    && (forall n :: n in Body(t, hold.node) ==> n in word && word[n] >= 0)
    && (hold.writes.Some? ==>
          var w := hold.writes.value;
          w in word && word[w] == 0 && w != ROOT && w !in Body(t, hold.node))
  }

  lemma {:induction false} SubsetCardinality<T>(a: set<T>, b: set<T>)
    requires a <= b
    ensures |a| <= |b|
  {
    if a != {} {
      var x :| x in a;
      SubsetCardinality(a - {x}, b - {x});
    }
  }

  function WithHold(s: Sys, h: HoldId, hold: Hold): Sys
    requires hold.node in s.tree.up
  {
    s.(word := Locked(s.tree, s.word, hold), holds := s.holds[h := hold])
  }

  function WithoutHold(s: Sys, h: HoldId): Sys
    requires h in s.holds && s.holds[h].node in s.tree.up
  {
    s.(word := Unlocked(s.tree, s.word, s.holds[h]), holds := s.holds - {h})
  }

  lemma GrantCounts(s: Sys, h: HoldId, hold: Hold, n: NodeId)
    requires h !in s.holds && hold.node in s.tree.up
    ensures Readers(WithHold(s, h, hold), n) == Readers(s, n) + if n in Body(s.tree, hold.node) then {h} else {}
    ensures Writers(WithHold(s, h, hold), n) == Writers(s, n) + if hold.writes == Some(n) then {h} else {}
  {
  }

  lemma ReleaseCounts(s: Sys, h: HoldId, n: NodeId)
    requires h in s.holds && s.holds[h].node in s.tree.up
    ensures Readers(WithoutHold(s, h), n) == Readers(s, n) - {h}
    ensures Writers(WithoutHold(s, h), n) == Writers(s, n) - {h}
  {
  }

  /** Locking a free path keeps the words exact. */
  lemma GrantKeepsOk(s: Sys, h: HoldId, hold: Hold)
    requires SysOk(s) && h !in s.holds && |s.holds| + 1 < INT_MAX
    requires Free(s.tree, s.word, hold)
    ensures SysOk(WithHold(s, h, hold))
  {
    var r := WithHold(s, h, hold);
    forall g | g in r.holds ensures HoldOk(r, g) {
      assert g in s.holds ==> HoldOk(s, g);
    }
    forall n | n in r.word ensures NodeWordOk(r, n) {
      GrantedWordOk(s, h, hold, n);
    }
  }

  lemma GrantedWordOk(s: Sys, h: HoldId, hold: Hold, n: NodeId)
    requires h !in s.holds && |s.holds| + 1 < INT_MAX && hold.node in s.tree.up && Free(s.tree, s.word, hold)
    requires n in s.word && NodeWordOk(s, n)
    ensures n in WithHold(s, h, hold).word && NodeWordOk(WithHold(s, h, hold), n)
  {
    GrantCounts(s, h, hold, n);
    SubsetCardinality(Readers(s, n), s.holds.Keys);
    assert h !in Readers(s, n) && h !in Writers(s, n);
  }

  /**
    The release walk never meets a word that its asserts reject: the written
    node carries exactly -1, and every node on the way carries a reader count.
   */
  lemma ReleaseFindsItsMarks(s: Sys, h: HoldId)
    requires SysOk(s) && h in s.holds
    ensures HoldOk(s, h)
    ensures s.holds[h].writes.Some? ==> s.word[s.holds[h].writes.value] == TREELOCK_WRITE
    ensures forall n :: n in Body(s.tree, s.holds[h].node) ==>
      n in s.word && s.word[n] != 0 && s.word[n] != TREELOCK_WRITE && s.word[n] != TREELOCK_WAIT_OFFSET
      && s.holds[h].writes != Some(n)
  {
    assert HoldOk(s, h);
    var node := s.holds[h].node;
    forall n | n in Body(s.tree, node)
      ensures n in s.word && s.word[n] != 0 && s.word[n] != TREELOCK_WRITE && s.word[n] != TREELOCK_WAIT_OFFSET
              && s.holds[h].writes != Some(n)
    {
      var k :| 0 <= k < |s.tree.up[node]| && s.tree.up[node][k] == n;
      WalkStep(s.tree, node, k);
      assert NodeWordOk(s, n);
      assert h in Readers(s, n);
      assert s.holds[h].writes == Some(n) ==> h in Writers(s, n);
    }
    if s.holds[h].writes.Some? {
      var w := s.holds[h].writes.value;
      assert NodeWordOk(s, w);
      assert h in Writers(s, w);
    }
  }

  /** Unlocking a granted path keeps the words exact. */
  lemma ReleaseKeepsOk(s: Sys, h: HoldId)
    requires SysOk(s) && h in s.holds
    ensures s.holds[h].node in s.tree.up && SysOk(WithoutHold(s, h))
  {
    ReleaseFindsItsMarks(s, h);
    var r := WithoutHold(s, h);
    forall g | g in r.holds ensures HoldOk(r, g) {
      assert HoldOk(s, g);
    }
    assert |r.holds| < INT_MAX by {
      SubsetCardinality(r.holds.Keys, s.holds.Keys);
    }
    forall n | n in r.word ensures NodeWordOk(r, n) {
      ReleasedWordOk(s, h, n);
    }
  }

  lemma ReleasedWordOk(s: Sys, h: HoldId, n: NodeId)
    requires h in s.holds && s.holds[h].node in s.tree.up && n in s.word && NodeWordOk(s, n)
    ensures n in WithoutHold(s, h).word && NodeWordOk(WithoutHold(s, h), n)
  {
    ReleaseCounts(s, h, n);
    assert n in Body(s.tree, s.holds[h].node) <==> h in Readers(s, n);
    assert s.holds[h].writes == Some(n) <==> h in Writers(s, n);
  }

  // ----- names that move while paths are locked -----

  /** A written node lies on no locked walk, so it can lose or change its parent. */
  lemma WrittenIsUnread(s: Sys, writer: HoldId, w: NodeId, h: HoldId)
    requires SysOk(s) && h in s.holds && Writes(s, writer, w)
    ensures s.holds[h].node in s.tree.up && w !in s.tree.up[s.holds[h].node]
  {
    assert HoldOk(s, h) && HoldOk(s, writer);
    assert NodeWordOk(s, w);
    assert writer in Writers(s, w);
    assert h !in Readers(s, w);
  }

  lemma MoveKeepsOk(s: Sys, t: Tree)
    requires SysOk(s) && WellFormed(t) && t.up.Keys == s.tree.up.Keys
    requires forall h :: h in s.holds ==> s.holds[h].node in t.up && t.up[s.holds[h].node] == s.tree.up[s.holds[h].node]
    ensures SysOk(s.(tree := t))
  {
    var r := s.(tree := t);
    forall h | h in r.holds ensures HoldOk(r, h) {
      assert HoldOk(s, h);
    }
    forall n | n in r.word ensures NodeWordOk(r, n) {
      assert NodeWordOk(s, n);
      assert Readers(r, n) == Readers(s, n) && Writers(r, n) == Writers(s, n);
    }
  }
}
