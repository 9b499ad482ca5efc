/**
  The tree of named nodes that lib/fuse.c keeps (struct node: parent, name),
  as a value. up caches, for every live node, the walk along the parent
  pointers: it ends at the root, or at a node that has no name any more.
 */
module PathTree {
  import opened Wrappers

  type NodeId = nat

  const ROOT: NodeId := 1

  datatype Link = Link(parent: NodeId, name: string)

  datatype Tree = Tree(link: map<NodeId, Link>, index: map<Link, NodeId>, up: map<NodeId, seq<NodeId>>)

  /** One node: its walk is itself, followed by its parent's walk if it has a name; the index finds it. */
  ghost predicate NodeOk(t: Tree, n: NodeId)
    requires n in t.up
  {
    if n in t.link then
      var k := t.link[n];
      n != ROOT && k.parent in t.up && t.up[n] == [n] + t.up[k.parent] && k in t.index && t.index[k] == n
    else
      t.up[n] == [n]
  }

  ghost predicate EntryOk(t: Tree, k: Link)
    requires k in t.index
  {
    t.index[k] in t.link && t.link[t.index[k]] == k
  }

  ghost predicate WellFormed(t: Tree)
  {
    && ROOT in t.up && t.link.Keys <= t.up.Keys
    && (forall n {:trigger NodeOk(t, n)} :: n in t.up ==> NodeOk(t, n))
    && (forall k {:trigger EntryOk(t, k)} :: k in t.index ==> EntryOk(t, k))
  }

  /** lookup_node */
  function Lookup(t: Tree, dir: NodeId, name: string): Option<NodeId>
  {
    if Link(dir, name) in t.index then Some(t.index[Link(dir, name)]) else None
  }

  /** The nodes the walk from n passes before it stops. */
  function Body(t: Tree, n: NodeId): seq<NodeId>
    requires n in t.up
  {
    if t.up[n] == [] then [] else t.up[n][..|t.up[n]| - 1]
  }

  /** The walk from n reaches the root. */
  predicate Connected(t: Tree, n: NodeId)
  {
    n in t.up && t.up[n] != [] && t.up[n][|t.up[n]| - 1] == ROOT
  }

  // ----- the walk -----

  lemma {:induction false} WalkStep(t: Tree, n: NodeId, k: nat)
    requires WellFormed(t) && n in t.up && k < |t.up[n]|
    ensures t.up[n][k] in t.up && t.up[t.up[n][k]] == t.up[n][k..]
    ensures t.up[n][k] in t.link <==> k + 1 < |t.up[n]|
    ensures k + 1 < |t.up[n]| ==> t.link[t.up[n][k]].parent == t.up[n][k + 1]
    decreases k
  {
    assert NodeOk(t, n);
    if n in t.link {
      var p := t.link[n].parent;
      assert NodeOk(t, p);
      assert t.up[n][1..] == t.up[p];
      if k > 0 {
        WalkStep(t, p, k - 1);
        assert t.up[n][k..] == t.up[p][k - 1..];
      }
    }
  }

  /** The walk never meets a node twice. */
  lemma WalkDistinct(t: Tree, n: NodeId, i: nat, j: nat)
    requires WellFormed(t) && n in t.up && i < j < |t.up[n]|
    ensures t.up[n][i] != t.up[n][j]
  {
    WalkStep(t, n, i);
    WalkStep(t, n, j);
    assert |t.up[n][i..]| != |t.up[n][j..]|;
  }

  lemma RootOnlyLast(t: Tree, n: NodeId, k: nat)
    requires WellFormed(t) && n in t.up && k < |t.up[n]| && t.up[n][k] == ROOT
    ensures k == |t.up[n]| - 1
  {
    WalkStep(t, n, k);
    assert NodeOk(t, ROOT);
  }

  // ----- unhash_name, hash_name, and a new node -----

  function Cut(s: seq<NodeId>, w: NodeId): (r: seq<NodeId>)
    ensures w !in s ==> r == s
  {
    if s == [] then []
    else if s[0] == w then [w]
    else [s[0]] + Cut(s[1..], w)
  }

  function CutAll(up: map<NodeId, seq<NodeId>>, w: NodeId): (r: map<NodeId, seq<NodeId>>)
    ensures r.Keys == up.Keys
  {
    map n | n in up :: Cut(up[n], w)
  }

  /** unhash_name: w loses its parent and name. */
  function Detach(t: Tree, w: NodeId): Tree
  {
    if w !in t.link then t
    else Tree(t.link - {w}, t.index - {t.link[w]}, CutAll(t.up, w))
  }

  lemma DetachWellFormed(t: Tree, w: NodeId)
    requires WellFormed(t)
    ensures WellFormed(Detach(t, w))
    ensures forall n :: n in t.up && w !in t.up[n] ==> Detach(t, w).up[n] == t.up[n]
  {
    if w in t.link {
      var r := Detach(t, w);
      assert NodeOk(t, w);
      forall n | n in r.up ensures NodeOk(r, n) {
        assert NodeOk(t, n);
        if n in r.link {
          assert ([n] + t.up[t.link[n].parent])[1..] == t.up[t.link[n].parent];
        }
      }
      forall k | k in r.index ensures EntryOk(r, k) {
        assert EntryOk(t, k);
      }
    }
  }

  function Graft(s: seq<NodeId>, w: NodeId, rest: seq<NodeId>): seq<NodeId>
  {
    if s != [] && s[|s| - 1] == w then s + rest else s
  }

  /** hash_name: w gets the parent p and a name. */
  function Attach(t: Tree, w: NodeId, p: NodeId, name: string): Tree
    requires p in t.up
  {
    Tree(t.link[w := Link(p, name)], t.index[Link(p, name) := w], map n | n in t.up :: Graft(t.up[n], w, t.up[p]))
  }

  lemma AttachWellFormed(t: Tree, w: NodeId, p: NodeId, name: string)
    requires WellFormed(t)
    requires w in t.up && w !in t.link && w != ROOT
    requires p in t.up && w !in t.up[p] && Link(p, name) !in t.index
    ensures WellFormed(Attach(t, w, p, name))
    ensures forall n :: n in t.up && w !in t.up[n] ==> Attach(t, w, p, name).up[n] == t.up[n]
  {
    var r := Attach(t, w, p, name);
    assert NodeOk(t, w) && NodeOk(t, p);
    forall n | n in r.up ensures NodeOk(r, n) {
      AttachedNode(t, w, p, name, n);
    }
    forall k | k in r.index ensures EntryOk(r, k) {
      assert k in t.index ==> EntryOk(t, k);
    }
  }

  lemma AttachedNode(t: Tree, w: NodeId, p: NodeId, name: string, n: NodeId)
    requires WellFormed(t) && n in t.up
    requires w in t.up && w !in t.link && w != ROOT
    requires p in t.up && w !in t.up[p] && Link(p, name) !in t.index
    ensures NodeOk(Attach(t, w, p, name), n)
  {
    assert NodeOk(t, w) && NodeOk(t, p) && NodeOk(t, n);
    if n in t.link {
      var q := t.link[n].parent;
      assert NodeOk(t, q);
      assert [n] + t.up[q] + t.up[p] == [n] + (t.up[q] + t.up[p]);
      assert EntryOk(t, t.link[n]);
    }
  }

  /** A fresh node that nobody names yet. */
  function AddNode(t: Tree, n: NodeId): Tree
  {
    t.(up := t.up[n := [n]])
  }

  lemma AddNodeWellFormed(t: Tree, n: NodeId)
    requires WellFormed(t) && n !in t.up
    ensures WellFormed(AddNode(t, n))
  {
    var r := AddNode(t, n);
    forall m | m in r.up ensures NodeOk(r, m) {
      assert m in t.up ==> NodeOk(t, m);
    }
    forall k | k in r.index ensures EntryOk(r, k) {
      assert EntryOk(t, k);
    }
  }

  // ----- what the operations do to the names -----

  /** rename_node; keepsName is false when the copy of the new name cannot be allocated. */
  function RenameTree(t: Tree, oldAt: Link, newAt: Link, hiding: bool, keepsName: bool): Tree
    requires newAt.parent in t.up
  {
    if oldAt !in t.index || (newAt in t.index && hiding) then t
    else
      var node := t.index[oldAt];
      var t1 := if newAt in t.index then Detach(t, t.index[newAt]) else t;
      var t2 := Detach(t1, node);
      if keepsName then Attach(t2, node, newAt.parent, newAt.name) else t2
  }

  /** exchange_node */
  function ExchangeTree(t: Tree, oldAt: Link, newAt: Link, keeps1: bool, keeps2: bool): Tree
    requires oldAt.parent in t.up && newAt.parent in t.up
  {
    var t1 := if oldAt in t.index then Detach(t, t.index[oldAt]) else t;
    var t2 := if newAt in t.index then Detach(t1, t.index[newAt]) else t1;
    if oldAt in t.index && !keeps1 then t2
    else
      var t3 := if oldAt in t.index then Attach(t2, t.index[oldAt], newAt.parent, newAt.name) else t2;
      if newAt in t.index && keeps2 then Attach(t3, t.index[newAt], oldAt.parent, oldAt.name) else t3
  }

  /** find_node, for a name that is not known yet; the new node gets the id n. */
  function CreateTree(t: Tree, n: NodeId, at: Link): Tree
    requires at.parent in t.up
  {
    Attach(AddNode(t, n), n, at.parent, at.name)
  }

  /** remove_node */
  function RemoveTree(t: Tree, at: Link): Tree
  {
    if at in t.index then Detach(t, t.index[at]) else t
  }

  /** delete_node, for all the nodes that go at once. */
  function DeleteTree(t: Tree, gone: set<NodeId>): Tree
  {
    Tree(t.link - gone, map k | k in t.index && t.index[k] !in gone :: t.index[k], t.up - gone)
  }

  /** Nobody stays behind under a node that goes. */
  predicate Closed(t: Tree, gone: set<NodeId>)
  {
    ROOT !in gone && gone <= t.up.Keys && forall m :: m in t.link && t.link[m].parent in gone ==> m in gone
  }

  lemma DeleteWellFormed(t: Tree, gone: set<NodeId>)
    requires WellFormed(t) && Closed(t, gone)
    ensures WellFormed(DeleteTree(t, gone))
    ensures forall n :: n in t.up && n !in gone ==> n in DeleteTree(t, gone).up && DeleteTree(t, gone).up[n] == t.up[n]
  {
    var r := DeleteTree(t, gone);
    forall n | n in r.up ensures NodeOk(r, n) {
      assert NodeOk(t, n);
    }
    forall k | k in r.index ensures EntryOk(r, k) {
      assert EntryOk(t, k);
    }
  }
}
