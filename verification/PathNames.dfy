/**
  The path text that try_get_path builds leads back to the node it was built
  for, when it is looked up from the root (lookup_path_in_cache).
 */
module PathNames {
  import opened Paths
  import opened Wrappers
  import opened PathTree
  import opened PathRequests
  import opened PathMachine

  /** Names are what the kernel sends: not empty and without a slash. */
  predicate NamesOk(t: Tree)
  {
    forall n :: n in t.link ==> IsName(t.link[n].name)
  }

  /** lookup_path_in_cache, on the components of a path */
  function Resolve(t: Tree, start: NodeId, cs: seq<string>): Option<NodeId>
    decreases |cs|
  {
    if cs == [] then Some(start)
    else
      match Lookup(t, start, cs[0])
      case None => None
      case Some(n) => Resolve(t, n, cs[1..])
  }

  /** The same, the way the code does it: one component after the other. */
  method LookupPathInCache(t: Tree, path: string) returns (r: Option<NodeId>)
    ensures r == Resolve(t, ROOT, Components(path))
  {
    var cs := Components(path);
    var ino := ROOT;
    var i := 0;
    while i < |cs|
      invariant 0 <= i <= |cs|
      invariant Resolve(t, ROOT, cs) == Resolve(t, ino, cs[i..])
    {
      assert cs[i..][0] == cs[i] && cs[i..][1..] == cs[i + 1..];
      var node := Lookup(t, ino, cs[i]);
      if node.None? {
        return None;
      }
      ino := node.value;
      i := i + 1;
    }
    return Some(ino);
  }

  /** The names on the way from the root down to the start of the walk. */
  function NamesDown(link: map<NodeId, Link>, nodes: seq<NodeId>): seq<string>
    requires forall n :: n in nodes ==> n in link
  {
    if nodes == [] then [] else NamesDown(link, nodes[1..]) + [link[nodes[0]].name]
  }

  lemma {:induction false} TextComponents(link: map<NodeId, Link>, nodes: seq<NodeId>, tail: string)
    requires forall n :: n in nodes ==> n in link && IsName(link[n].name)
    requires AtBoundary(tail)
    ensures Components(Text(link, nodes, tail)) == NamesDown(link, nodes) + Components(tail)
    decreases |nodes|
  {
    if nodes != [] {
      var name := link[nodes[0]].name;
      SlashNameThenRest(name, tail);
      TextComponents(link, nodes[1..], "/" + name + tail);
      assert NamesDown(link, nodes[1..]) + ([name] + Components(tail)) ==
             NamesDown(link, nodes[1..]) + [name] + Components(tail);
    }
  }

  lemma {:induction false} ResolveAppend(t: Tree, start: NodeId, cs: seq<string>, ds: seq<string>)
    ensures Resolve(t, start, cs + ds) ==
            if Resolve(t, start, cs).Some? then Resolve(t, Resolve(t, start, cs).value, ds) else None
    decreases |cs|
  {
    if cs == [] {
      assert cs + ds == ds;
    } else {
      assert (cs + ds)[1..] == cs[1..] + ds;
      var n := Lookup(t, start, cs[0]);
      if n.Some? {
        ResolveAppend(t, n.value, cs[1..], ds);
      }
    }
  }

  lemma {:induction false} NamesLeadBack(t: Tree, n: NodeId)
    requires WellFormed(t) && Connected(t, n)
    ensures forall m :: m in Body(t, n) ==> m in t.link
    ensures Resolve(t, ROOT, NamesDown(t.link, Body(t, n))) == Some(n)
    decreases |t.up[n]|
  {
    BodyNamed(t, n);
    assert NodeOk(t, n);
    if n in t.link {
      var p := t.link[n].parent;
      assert NodeOk(t, p);
      NamesLeadBack(t, p);
      assert Body(t, n) == [n] + Body(t, p);
      var down := NamesDown(t.link, Body(t, p));
      ResolveAppend(t, ROOT, down, [t.link[n].name]);
      assert [t.link[n].name][1..] == [];
    }
  }


  /**
    Round trip: looking the text of a granted path up in the cache gives back
    the node that was locked, or its child of the requested name.
   */
  lemma PathLeadsBack(t: Tree, leg: Leg)
    requires WellFormed(t) && NamesOk(t) && LegOk(t, leg) && Connected(t, leg.node)
    requires leg.name.Some? ==> IsName(leg.name.value)
    ensures forall m :: m in Body(t, leg.node) ==> m in t.link
    ensures Resolve(t, ROOT, Components(PathOf(t, leg))) ==
            if leg.name.Some? then Lookup(t, leg.node, leg.name.value) else Some(leg.node)
  {
    NamesLeadBack(t, leg.node);
    var body := Body(t, leg.node);
    var down := NamesDown(t.link, body);
    TextComponents(t.link, body, TailOf(leg));
    var s := Text(t.link, body, TailOf(leg));
    if s == "" {
      assert Components("/") == Components("");
    }
    if leg.name.Some? {
      SlashNameThenRest(leg.name.value, "");
      assert "/" + leg.name.value + "" == TailOf(leg);
      assert Components(TailOf(leg)) == [leg.name.value];
      ResolveAppend(t, ROOT, down, [leg.name.value]);
      assert [leg.name.value][1..] == [];
    } else {
      assert down + [] == down;
    }
  }
}
