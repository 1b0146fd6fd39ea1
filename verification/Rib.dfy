/** The RIB: a name tree of routes that prunes itself, and whose every change is passed on to
    the FIB as calls on the FIB-Strategy table. */
module Rib {
  import opened Names
  import opened FibSpec
  import opened RibSpec

  class RibEntry {
    const component: Component
    const depth: nat
    const parent: RibEntry?
    /** The name that the components on the way from the root spell. */
    ghost const path: Name

    var name: Option<Name>
    var children: set<RibEntry>
    var routes: seq<Route>

    constructor AtRoot()
      ensures path == Root && depth == 0 && parent == null && name == None
      ensures children == {} && routes == []
    {
      component, depth, parent, path := Component(0, []), 0, null, Root;
      name, children, routes := None, {}, [];
    }

    constructor Below(parent: RibEntry, component: Component, depth: nat)
      ensures this.path == Under(parent.path, component) && this.component == component
      ensures this.depth == depth && this.parent == parent && name == None
      ensures children == {} && routes == []
    {
      this.component, this.depth, this.parent := component, depth, parent;
      this.path := Under(parent.path, component);
      name, children, routes := None, {}, [];
    }
  }

  // ---------- what hangs in the tree, as values ----------

  /** The entries in the tree, by the name they stand for. */
  type Nodes = map<Name, RibEntry>

  /** The changing part of an entry. */
  datatype Content = Content(name: Option<Name>, children: set<RibEntry>, routes: seq<Route>)

  const EMPTY: Content := Content(None, {}, [])

  type Contents = map<Name, Content>

  /** The entry at p knows its component and hangs below the entry at p.prefix. */
  ghost predicate Hangs(nodes: Nodes, p: Name)
  {
    p in nodes && p != Root ==>
      p.prefix in nodes && nodes[p].parent == nodes[p.prefix] && nodes[p].component == p.last
  }

  /** Entries stand for distinct names and know their depth, component and parent. */
  ghost predicate PathsOk(root: RibEntry, nodes: Nodes)
  {
    && Root in nodes && nodes[Root] == root && root.parent == null
    && (forall p {:trigger nodes[p]} :: p in nodes ==> nodes[p].path == p && nodes[p].depth == Len(p))
    && (forall p {:trigger Hangs(nodes, p)} :: Hangs(nodes, p))
  }

  /** `child` is an entry of the tree, right below the name. */
  ghost predicate IsChild(nodes: Nodes, child: RibEntry, p: Name)
  {
    child.path in nodes && nodes[child.path] == child && child.path != Root && child.path.prefix == p
  }

  /** The entry at p is among the children of the entry at p.prefix. */
  ghost predicate InList(nodes: Nodes, contents: Contents, p: Name)
  {
    p in nodes && p != Root && p.prefix in contents ==> nodes[p] in contents[p.prefix].children
  }

  /** The children sets hold exactly the entries of the tree. */
  ghost predicate ChildrenOk(nodes: Nodes, contents: Contents)
  {
    && contents.Keys == nodes.Keys
    && (forall p, c {:trigger c in contents[p].children} :: p in contents && c in contents[p].children ==>
          IsChild(nodes, c, p))
    && (forall p {:trigger InList(nodes, contents, p)} :: InList(nodes, contents, p))
  }

  /** Entries with routes have their name; no entry has another one. */
  ghost predicate EntryOk(c: Content, view: Rib, p: Name) {
    && c.routes == RoutesAt(view, p)
    && (c.name == None || c.name == Some(p))
    && (c.routes != [] ==> c.name == Some(p))
  }

  ghost predicate ViewOk(contents: Contents, view: Rib)
  {
    && RibSpec.WellFormed(view)
    && view.Keys <= contents.Keys
    && (forall p {:trigger contents[p]} :: p in contents ==> EntryOk(contents[p], view, p))
  }

  /** No entry is useless: each but the root, and but the one at `but`, has a child or a route. */
  ghost predicate LeavesOk(contents: Contents, but: Option<Name>)
  {
    forall p {:trigger contents[p]} ::
      p in contents && p != Root && contents[p].children == {} && Some(p) != but ==> contents[p].routes != []
  }

  /** The entries with their name. */
  ghost function NamedIn(contents: Contents): set<Name> {
    set p | p in contents && contents[p].name.Some?
  }

  /** In a tree without useless entries these are just the prefixes of names with routes. */
  lemma {:induction false} EntriesAre(root: RibEntry, nodes: Nodes, contents: Contents, view: Rib, p: Name)
    requires Sound(root, nodes, contents, view, None)
    ensures p in nodes <==> IsEntry(view, p)
  {
    if p in nodes {
      EntryLeads(root, nodes, contents, view, p, Deepest(nodes.Keys));
    } else if IsEntry(view, p) {
      var n :| n in view && IsPrefix(p, n);
      PrefixesOn(root, nodes, n, Len(p));
    }
  }

  lemma {:induction false} EntryLeads(root: RibEntry, nodes: Nodes, contents: Contents, view: Rib, p: Name, bound: nat)
    requires Sound(root, nodes, contents, view, None) && p in nodes && forall q :: q in nodes ==> Len(q) <= bound
    ensures IsEntry(view, p)
    decreases bound - Len(p)
  {
    assert EntryOk(contents[p], view, p);
    if p != Root && p !in view {
      var c :| c in contents[p].children;
      assert IsChild(nodes, c, p);
      EntryLeads(root, nodes, contents, view, c.path, bound);
      var n :| n in view && IsPrefix(c.path, n);
      PrefixOfPrefix(n, Len(c.path), Len(p));
    } else if p in view {
      assert IsPrefix(p, p);
    }
  }

  ghost predicate Sound(root: RibEntry, nodes: Nodes, contents: Contents, view: Rib, but: Option<Name>)
  {
    PathsOk(root, nodes) && ChildrenOk(nodes, contents) && ViewOk(contents, view) && LeavesOk(contents, but)
  }

  lemma {:induction false} PrefixesOn(root: RibEntry, nodes: Nodes, p: Name, k: nat)
    requires PathsOk(root, nodes) && k <= Len(p)
    ensures p in nodes ==> Prefix(p, k) in nodes
    decreases Len(p)
  {
    if k < Len(p) {
      assert Hangs(nodes, p);
      PrefixesOn(root, nodes, p.prefix, k);
    }
  }

  // ---------- hanging an entry ----------

  function WithChild(contents: Contents, q: Name, child: RibEntry, path: Name): Contents
    requires q in contents
  {
    contents[path := EMPTY][q := contents[q].(children := contents[q].children + {child})]
  }

  lemma AddPaths(root: RibEntry, nodes: Nodes, entry: RibEntry, child: RibEntry)
    requires PathsOk(root, nodes)
    requires entry.path in nodes && nodes[entry.path] == entry && child.path !in nodes
    requires child.path == Under(entry.path, child.component) && child.parent == entry && child.depth == Len(child.path)
    ensures PathsOk(root, nodes[child.path := child])
  {
    var nodes' := nodes[child.path := child];
    forall p ensures Hangs(nodes', p) {
      assert Hangs(nodes, p);
    }
  }

  lemma AddChildren(nodes: Nodes, contents: Contents, entry: RibEntry, child: RibEntry)
    requires ChildrenOk(nodes, contents)
    requires forall p {:trigger Hangs(nodes, p)} :: Hangs(nodes, p)
    requires entry.path in nodes && nodes[entry.path] == entry && child.path !in nodes
    requires child.path != Root && child.path.prefix == entry.path
    ensures ChildrenOk(nodes[child.path := child], WithChild(contents, entry.path, child, child.path))
  {
    var nodes' := nodes[child.path := child];
    var contents' := WithChild(contents, entry.path, child, child.path);
    forall p, c | p in contents' && c in contents'[p].children ensures IsChild(nodes', c, p) {
      if c != child {
        assert p in contents && c in contents[p].children;
      }
    }
    forall p ensures InList(nodes', contents', p) {
      assert InList(nodes, contents, p) && Hangs(nodes, p);
    }
  }

  lemma AddView(contents: Contents, view: Rib, q: Name, child: RibEntry, path: Name)
    requires ViewOk(contents, view) && q in contents && path !in contents && LeavesOk(contents, Some(q))
    ensures ViewOk(WithChild(contents, q, child, path), view)
    ensures LeavesOk(WithChild(contents, q, child, path), Some(path))
  {
    assert child in WithChild(contents, q, child, path)[q].children;
  }

  lemma AddOk(root: RibEntry, nodes: Nodes, contents: Contents, view: Rib, entry: RibEntry, child: RibEntry)
    requires Sound(root, nodes, contents, view, Some(entry.path))
    requires entry.path in nodes && nodes[entry.path] == entry && child.path !in nodes
    requires child.path == Under(entry.path, child.component) && child.parent == entry && child.depth == Len(child.path)
    ensures Sound(root, nodes[child.path := child], WithChild(contents, entry.path, child, child.path), view,
                  Some(child.path))
  {
    AddPaths(root, nodes, entry, child);
    AddChildren(nodes, contents, entry, child);
    AddView(contents, view, entry.path, child, child.path);
  }

  lemma AddNamed(contents: Contents, q: Name, child: RibEntry)
    requires q in contents && child.path !in contents
    ensures NamedIn(WithChild(contents, q, child, child.path)) == NamedIn(contents)
  {
  }

  /** The step from one prefix of a name to the next. */
  lemma NextName(root: RibEntry, nodes: Nodes, entry: RibEntry, child: RibEntry, name: Name, d: nat)
    requires PathsOk(root, nodes) && IsPrefix(entry.path, name)
    requires d == Len(entry.path) + 1 <= Len(name) && Prefix(name, d) !in nodes
    requires child.path == Under(entry.path, child.component) && child.component == At(name, d - 1)
    ensures child.path == Prefix(name, d) && child.path !in nodes
    ensures child.path == name || Prefix(name, d + 1) !in nodes[child.path := child]
  {
    NextPrefix(name, d - 1);
    if d < Len(name) {
      NextPrefix(name, d);
      assert Hangs(nodes, Prefix(name, d + 1));
    }
  }

  // ---------- unhanging an entry ----------

  function WithoutChild(contents: Contents, q: Name, child: RibEntry): Contents
    requires q != Root && q.prefix in contents
  {
    contents[q.prefix := contents[q.prefix].(children := contents[q.prefix].children - {child})] - {q}
  }

  /** The entry at q is in the tree, below another one, and has no child and no route. */
  ghost predicate Prunable(nodes: Nodes, contents: Contents, q: Name)
  {
    q in nodes && q != Root && q.prefix in nodes && q in contents && contents[q].children == {}
        && contents[q].routes == []
  }

  lemma DropPaths(root: RibEntry, nodes: Nodes, contents: Contents, q: Name)
    requires PathsOk(root, nodes) && ChildrenOk(nodes, contents) && Prunable(nodes, contents, q)
    ensures PathsOk(root, nodes - {q})
  {
    forall p ensures Hangs(nodes - {q}, p) {
      assert Hangs(nodes, p) && InList(nodes, contents, p);
    }
  }

  lemma DropChildren(nodes: Nodes, contents: Contents, q: Name)
    requires ChildrenOk(nodes, contents) && Prunable(nodes, contents, q)
    requires forall p {:trigger nodes[p]} :: p in nodes ==> nodes[p].path == p
    ensures ChildrenOk(nodes - {q}, WithoutChild(contents, q, nodes[q]))
  {
    var nodes' := nodes - {q};
    var contents' := WithoutChild(contents, q, nodes[q]);
    forall p, c | p in contents' && c in contents'[p].children ensures IsChild(nodes', c, p) {
      assert c in contents[p].children;
      assert IsChild(nodes, c, p);
    }
    forall p ensures InList(nodes', contents', p) {
      assert InList(nodes, contents, p);
    }
  }

  lemma DropView(nodes: Nodes, contents: Contents, view: Rib, q: Name)
    requires ViewOk(contents, view) && LeavesOk(contents, Some(q)) && Prunable(nodes, contents, q)
    requires q.prefix in contents
    ensures ViewOk(WithoutChild(contents, q, nodes[q]), view)
    ensures LeavesOk(WithoutChild(contents, q, nodes[q]), Some(q.prefix))
  {
    assert EntryOk(contents[q], view, q);
  }

  lemma DropOk(root: RibEntry, nodes: Nodes, contents: Contents, view: Rib, q: Name)
    requires Sound(root, nodes, contents, view, Some(q)) && Prunable(nodes, contents, q)
    ensures Sound(root, nodes - {q}, WithoutChild(contents, q, nodes[q]), view, Some(q.prefix))
  {
    DropPaths(root, nodes, contents, q);
    DropChildren(nodes, contents, q);
    DropView(nodes, contents, view, q);
  }

  /** Of the entries only some at prefixes of p have gone. */
  ghost predicate Dropped(before: Nodes, after: Nodes, p: Name)
  {
    && Within(before, after)
    && (forall q :: q in before && q !in after ==> IsPrefix(q, p))
  }

  /** No entry is new or another one. */
  ghost predicate Within(before: Nodes, after: Nodes)
  {
    forall q :: q in after ==> q in before && after[q] == before[q]
  }

  /** Of the entries only some above or below p have gone. */
  ghost predicate DroppedNear(before: Nodes, after: Nodes, p: Name)
  {
    && Within(before, after)
    && (forall q :: q in before && q !in after ==> IsPrefix(q, p) || IsPrefix(p, q))
  }

  lemma DroppedMore(before: Nodes, between: Nodes, after: Nodes, p: Name)
    requires p in before && p != Root && between == before - {p} && Dropped(between, after, p.prefix)
    ensures Dropped(before, after, p)
  {
    forall q | q in before && q !in after ensures IsPrefix(q, p) {
      if q != p {
        assert q in between;
        PrefixStep(q, p);
      }
    }
  }

  // ---------- changing an entry ----------

  lemma StoreOk(root: RibEntry, nodes: Nodes, contents: Contents, view: Rib, p: Name, c: Content,
                contents': Contents, view': Rib)
    requires Sound(root, nodes, contents, view, Some(p))
    requires p in contents && c.children == contents[p].children && UniqueKeys(c.routes)
    requires c.name == contents[p].name || c.name == Some(p)
    requires c.routes != [] ==> c.name == Some(p)
    requires contents' == contents[p := c] && view' == WithRoutes(view, p, c.routes)
    ensures Sound(root, nodes, contents', view', Some(p))
  {
    StoreChildren(nodes, contents, p, c);
    StoreView(contents, view, p, c);
  }

  lemma StoreChildren(nodes: Nodes, contents: Contents, p: Name, c: Content)
    requires ChildrenOk(nodes, contents)
    requires p in contents && c.children == contents[p].children
    ensures ChildrenOk(nodes, contents[p := c])
  {
    var contents' := contents[p := c];
    forall q ensures InList(nodes, contents', q) {
      assert InList(nodes, contents, q);
    }
  }

  lemma NamedStored(contents: Contents, p: Name, c: Content)
    requires p in contents
    ensures c.name == contents[p].name ==> NamedIn(contents[p := c]) == NamedIn(contents)
    ensures c.name.Some? ==> NamedIn(contents[p := c]) == NamedIn(contents) + {p}
  {
  }

  lemma StoreView(contents: Contents, view: Rib, p: Name, c: Content)
    requires ViewOk(contents, view) && p in contents && UniqueKeys(c.routes)
    requires c.name == contents[p].name || c.name == Some(p)
    requires c.routes != [] ==> c.name == Some(p)
    ensures ViewOk(contents[p := c], WithRoutes(view, p, c.routes))
  {
    assert EntryOk(contents[p], view, p);
  }

  // ---------- the calls on the FIB ----------

  /** A call on the FIB-Strategy table: for a name, or to clear the nexthops of no name. */
  datatype Call = Named(op: Op) | ClearNil

  /** What the calls make of a table. A call for no name is one for the empty name, or it is skipped:
      the hash table takes it for that, the tree skips it. */
  function RunCalls(fib: Fib, calls: seq<Call>, nilIsRoot: bool): Fib {
    if calls == [] then fib
    else
      var before := RunCalls(fib, calls[..|calls| - 1], nilIsRoot);
      match calls[|calls| - 1]
      case Named(op) => Apply(before, op)
      case ClearNil => if nilIsRoot then FibSpec.ClearNextHops(before, Root) else before
  }

  /** There was a call for no name, and none for the empty name since. */
  function RootLost(calls: seq<Call>): bool {
    calls != [] &&
    match calls[|calls| - 1]
    case Named(op) => op.name != Root && RootLost(calls[..|calls| - 1])
    case ClearNil => true
  }

  lemma CallMore(fib: Fib, calls: seq<Call>, call: Call, nilIsRoot: bool)
    ensures RunCalls(fib, calls + [call], nilIsRoot) == RunCalls(RunCalls(fib, calls, nilIsRoot), [call], nilIsRoot)
    ensures RootLost(calls + [call]) == (call == ClearNil || (call.op.name != Root && RootLost(calls)))
  {
    assert (calls + [call])[..|calls|] == calls;
    assert [call][..0] == [];
    assert RunCalls(RunCalls(fib, calls, nilIsRoot), [], nilIsRoot) == RunCalls(fib, calls, nilIsRoot);
  }

  /** The loop that collects the least cost per face. */
  method CollectMinCosts(routes: seq<Route>) returns (minCostRoutes: HopMap)
    ensures minCostRoutes == MinCosts(routes)
  {
    minCostRoutes := map[];
    var i := 0;
    while i < |routes|
      invariant i <= |routes| && minCostRoutes == MinCosts(routes[..i])
    {
      assert routes[..i + 1][..i] == routes[..i];
      var route := routes[i];
      if route.face !in minCostRoutes || route.cost < minCostRoutes[route.face] {
        minCostRoutes := minCostRoutes[route.face := route.cost];
      }
      i := i + 1;
    }
    assert routes[..|routes|] == routes;
  }

  lemma InsertStep(fib: Fib, name: Name, sent: HopMap, face: FaceId, cost: nat)
    ensures Apply(WithHops(fib, name, sent), OpInsert(name, face, cost)) == WithHops(fib, name, sent[face := cost])
  {
  }

  /** The FIB-Strategy table behind its interface: the calls that it gets. */
  class FibStrategy {
    var calls: seq<Call>
    /** What the calls make of the tree, and of the hash table. */
    ghost var fib: Fib
    ghost var hashed: Fib
    ghost const before: Fib

    ghost predicate Valid()
      reads this
    {
      fib == RunCalls(before, calls, false) && hashed == RunCalls(before, calls, true)
    }

    constructor (before: Fib)
      ensures Valid() && fib == hashed == before && this.before == before && calls == []
    {
      this.before := before;
      calls, fib, hashed := [], before, before;
    }

    method Do(op: Op)
      requires Valid()
      modifies this
      ensures Valid() && fib == Apply(old(fib), op) && hashed == Apply(old(hashed), op)
      ensures RootLost(calls) == (RootLost(old(calls)) && op.name != Root)
    {
      CallMore(before, calls, Named(op), false);
      CallMore(before, calls, Named(op), true);
      calls, fib, hashed := calls + [Named(op)], Apply(fib, op), Apply(hashed, op);
    }

    method DoClearNil()
      requires Valid()
      modifies this
      ensures Valid() && fib == old(fib) && hashed == FibSpec.ClearNextHops(old(hashed), Root) && RootLost(calls)
    {
      CallMore(before, calls, ClearNil, false);
      CallMore(before, calls, ClearNil, true);
      calls, hashed := calls + [ClearNil], FibSpec.ClearNextHops(hashed, Root);
    }

    /** The calls for an entry: clear, then insert each face with the least cost of its routes, in any
        order. An entry without a name has no routes. */
    method UpdateNexthops(name: Option<Name>, routes: seq<Route>)
      requires Valid() && (name == None ==> routes == [])
      modifies this
      ensures Valid()
      ensures match name
              case Some(n) =>
                && fib == WithHops(old(fib), n, MinCosts(routes))
                   && hashed == WithHops(old(hashed), n, MinCosts(routes))
                && RootLost(calls) == (RootLost(old(calls)) && n != Root)
              case None => fib == old(fib) && hashed == FibSpec.ClearNextHops(old(hashed), Root) && RootLost(calls)
    {
      if name == None {
        DoClearNil();
      } else {
        Do(OpClear(name.value));
      }
      var minCostRoutes := CollectMinCosts(routes);
      if name.Some? {
        InsertAll(name.value, minCostRoutes, old(fib), old(hashed));
      }
    }

    /** The loop over the faces. */
    method InsertAll(name: Name, minCostRoutes: HopMap, ghost fib0: Fib, ghost hashed0: Fib)
      requires Valid() && fib == WithHops(fib0, name, map[]) && hashed == WithHops(hashed0, name, map[])
      modifies this
      ensures Valid() && fib == WithHops(fib0, name, minCostRoutes) && hashed == WithHops(hashed0, name, minCostRoutes)
      ensures RootLost(calls) == (RootLost(old(calls)) && (name != Root || minCostRoutes == map[]))
    {
      var rest := minCostRoutes.Keys;
      ghost var sent: HopMap := map[];
      while rest != {}
        invariant rest <= minCostRoutes.Keys && sent == minCostRoutes - rest && Valid()
        invariant fib == WithHops(fib0, name, sent) && hashed == WithHops(hashed0, name, sent)
        invariant RootLost(calls) == (RootLost(old(calls)) && (name != Root || sent == map[]))
        decreases rest
      {
        var nexthop :| nexthop in rest;
        InsertStep(fib0, name, sent, nexthop, minCostRoutes[nexthop]);
        InsertStep(hashed0, name, sent, nexthop, minCostRoutes[nexthop]);
        Do(OpInsert(name, nexthop, minCostRoutes[nexthop]));
        rest := rest - {nexthop};
        sent := sent[nexthop := minCostRoutes[nexthop]];
        assert sent == minCostRoutes - rest;
      }
      assert sent == minCostRoutes;
    }
  }

  /** The keys at and below any of the entries. */
  ghost function BelowAny(keys: set<Name>, entries: set<RibEntry>): set<Name> {
    set n | n in keys && exists c :: c in entries && IsPrefix(c.path, n)
  }

  lemma NoneBelow(rib: Rib, entries: set<RibEntry>, face: FaceId)
    requires entries == {} && RibSpec.WellFormed(rib)
    ensures CleanAt(rib, BelowAny(rib.Keys, entries), face) == rib
  {
    assert BelowAny(rib.Keys, entries) == {};
    CleanNothing(rib, face);
  }

  /** Cleaning below one of some siblings, then below the others, is cleaning below all. */
  lemma BelowMore(rib: Rib, rib': Rib, child: RibEntry, rest: set<RibEntry>, face: FaceId)
    requires child in rest && child.path != Root
    requires forall c :: c in rest ==> c.path != Root && c.path.prefix == child.path.prefix
    requires forall c, d :: c in rest && d in rest && c.path == d.path ==> c == d
    requires rib' == CleanAt(rib, Below(rib.Keys, child.path), face)
    ensures CleanAt(rib', BelowAny(rib'.Keys, rest - {child}), face) == CleanAt(rib, BelowAny(rib.Keys, rest), face)
  {
    var s, t := Below(rib.Keys, child.path), BelowAny(rib.Keys, rest - {child});
    assert BelowAny(rib.Keys, rest) == s + t;
    assert BelowAny(rib'.Keys, rest - {child}) == t * rib'.Keys;
    CleanTwice(rib, s, t, face);
  }

  lemma SiblingsStay(before: Nodes, after: Nodes, child: RibEntry, rest: set<RibEntry>)
    requires DroppedNear(before, after, child.path) && child in rest && child.path != Root
    requires forall c :: c in rest ==>
               c.path in before && before[c.path] == c && c.path != Root && c.path.prefix == child.path.prefix
    ensures forall c :: c in rest - {child} ==> c.path in after && after[c.path] == c
  {
    forall c | c in rest - {child} ensures c.path in after {
      assert Len(c.path) == Len(child.path) && c.path != child.path;
    }
  }

  /** What is near a child is near its parent. */
  lemma NearMore(before: Nodes, between: Nodes, after: Nodes, p: Name)
    requires p != Root && DroppedNear(before, between, p) && DroppedNear(between, after, p.prefix)
    ensures DroppedNear(before, after, p.prefix)
  {
    forall q | q in before && q !in after ensures IsPrefix(q, p.prefix) || IsPrefix(p.prefix, q) {
      if q !in between {
        NearParent(p, q);
      }
    }
  }

  /** The entry itself comes after the names below it. */
  lemma CleanRest(rib: Rib, rib': Rib, p: Name, face: FaceId)
    requires rib' == CleanAt(rib, Below(rib.Keys, p) - {p}, face)
    ensures CleanAt(rib', {p}, face) == CleanAt(rib, Below(rib.Keys, p), face)
  {
    var s := Below(rib.Keys, p) - {p};
    CleanTwice(rib, s, {p}, face);
    CleanThere(rib', {p}, {p} * rib'.Keys, face);
    CleanThere(rib, s + {p}, Below(rib.Keys, p), face);
  }

  /** Only names with routes matter. */
  lemma CleanThere(rib: Rib, s: set<Name>, t: set<Name>, face: FaceId)
    requires forall n :: n in rib ==> (n in s <==> n in t)
    ensures CleanAt(rib, s, face) == CleanAt(rib, t, face)
  {
  }

  lemma NearParent(p: Name, q: Name)
    requires p != Root && (IsPrefix(q, p) || IsPrefix(p, q))
    ensures IsPrefix(q, p.prefix) || IsPrefix(p.prefix, q)
  {
    if IsPrefix(p, q) {
      PrefixOfPrefix(q, Len(p), Len(p) - 1);
    }
  }

  // ---------- the table ----------

  class RibTable {
    const root: RibEntry
    ghost var nodes: Nodes
    ghost var contents: Contents
    ghost var Repr: set<RibEntry>
    /** What the table means. */
    ghost var view: Rib
    const fib: FibStrategy

    ghost predicate Mirrors(entry: RibEntry, c: Content)
      reads entry
    {
      entry.name == c.name && entry.children == c.children && entry.routes == c.routes
    }

    /** The entries in the tree hold what `contents` says. */
    ghost predicate Mirrored()
      reads this`nodes, this`contents, this`Repr, Repr
    {
      forall p {:trigger Tied(p)} {:trigger nodes[p]} :: Tied(p)
    }

    ghost predicate Tied(p: Name)
      reads this`nodes, this`contents, this`Repr, Repr
    {
      p in nodes ==> p in contents && nodes[p] in Repr && Mirrors(nodes[p], contents[p])
    }

    /** The entry hangs in the tree. */
    ghost predicate InTree(entry: RibEntry)
      reads this`nodes
    {
      entry.path in nodes && nodes[entry.path] == entry
    }

    /** The tree is in order, except that the entry at `but` may be useless. The parts are given to those
        who ask with Unfold. */
    ghost predicate TreeOk(but: Option<Name>)
      reads this`nodes, this`contents, this`view, this`Repr, Repr
    {
      forall k {:trigger Unfold(k)} :: Unfold(k) ==> Sound(root, nodes, contents, view, but) && Mirrored()
    }

    /** The FIB has the nexthops that the routes flatten to; an equation for the same reason. */
    ghost predicate FibOk()
      reads this`view, fib
    {
      (fib.Valid() && fib.fib.hops == Flatten(view) && fib.hashed.hops == HashHops(view, Lost())) == true
    }

    /** The hash table has lost what the RIB gave it for the empty name. */
    ghost predicate Lost()
      reads fib
    {
      RootLost(fib.calls)
    }

    /** What has become of the RIB. */
    ghost function Now(): History
      reads this`view, this`contents, fib
    {
      History(view, NamedIn(contents), Lost())
    }

    ghost predicate Valid()
      reads this, Repr, fib
    {
      TreeOk(None) && FibOk()
    }

    /** Only new entries have joined the representation. */
    twostate predicate Grown()
      reads this`Repr
    {
      forall o :: o in Repr ==> o in old(Repr) || fresh(o)
    }

    /** An empty RIB in front of a FIB-Strategy table without nexthops. */
    constructor (fib: FibStrategy)
      requires fib.Valid() && fib.fib.hops == map[] && fib.calls == []
      ensures Valid() && fresh(Repr) && Now() == NEW_RIB && this.fib == fib
    {
      root := new RibEntry.AtRoot();
      this.fib := fib;
      view := map[];
      new;
      nodes := map[Root := root];
      contents := map[Root := EMPTY];
      Repr := {root};
    }

    /** The entry hangs in the tree, at a prefix of the name. */
    ghost predicate On(entry: RibEntry, name: Name)
      reads this`nodes
    {
      InTree(entry) && IsPrefix(entry.path, name)
    }

    predicate Carries(c: RibEntry, name: Name) {
      At(name, c.depth - 1) == c.component
    }

    lemma ChildFound(entry: RibEntry, name: Name, c: RibEntry)
      requires PathsOk(root, nodes) && ChildrenOk(nodes, contents) && Mirrored()
      requires On(entry, name) && Len(entry.path) < Len(name)
      requires c in entry.children && Carries(c, name)
      ensures On(c, name) && c.path == Prefix(name, Len(entry.path) + 1)
    {
      assert IsChild(nodes, c, entry.path) && Hangs(nodes, c.path);
      NextPrefix(name, Len(entry.path));
    }

    /** The tree goes on towards the name just when a child carries its next component. */
    lemma ChildIff(entry: RibEntry, name: Name)
      requires PathsOk(root, nodes) && ChildrenOk(nodes, contents) && Mirrored()
      requires On(entry, name) && Len(entry.path) < Len(name)
      ensures Prefix(name, Len(entry.path) + 1) in nodes <==> exists c :: c in entry.children && Carries(c, name)
    {
      var next := Prefix(name, Len(entry.path) + 1);
      NextPrefix(name, Len(entry.path));
      if next in nodes {
        assert Hangs(nodes, next) && InList(nodes, contents, next);
        assert nodes[next] in entry.children && Carries(nodes[next], name);
      }
      forall c | c in entry.children && Carries(c, name) ensures next in nodes {
        ChildFound(entry, name, c);
      }
    }

    lemma ChildUnique(entry: RibEntry, name: Name)
      requires PathsOk(root, nodes) && ChildrenOk(nodes, contents) && Mirrored()
      requires On(entry, name) && Len(entry.path) < Len(name)
      ensures forall c, d :: c in entry.children && d in entry.children && Carries(c, name) && Carries(d, name) ==>
                c == d
    {
      forall c, d | c in entry.children && d in entry.children && Carries(c, name) && Carries(d, name) ensures c == d {
        ChildFound(entry, name, c);
        ChildFound(entry, name, d);
      }
    }

    /** The entry for exactly this name, or null. */
    function FindExactMatch(entry: RibEntry, name: Name): (r: RibEntry?)
      requires PathsOk(root, nodes) && ChildrenOk(nodes, contents) && Mirrored() && On(entry, name)
      reads this, Repr
      ensures r == if name in nodes then nodes[name] else null
      decreases Len(name) - Len(entry.path)
    {
      if Len(name) > entry.depth then
        ChildIff(entry, name);
        if exists c :: c in entry.children && Carries(c, name) then
          ChildUnique(entry, name);
          var c :| c in entry.children && Carries(c, name);
          ChildFound(entry, name, c);
          FindExactMatch(c, name)
        else
          PrefixesOn(root, nodes, name, Len(entry.path) + 1);
          null
      else
        assert entry.path == name;
        entry
    }

    /** The entry of the longest prefix of the name that hangs in the tree. */
    function FindLongestPrefix(entry: RibEntry, name: Name): (r: RibEntry)
      requires PathsOk(root, nodes) && ChildrenOk(nodes, contents) && Mirrored() && On(entry, name)
      reads this, Repr
      ensures On(r, name) && (r.path == name || Prefix(name, Len(r.path) + 1) !in nodes)
      decreases Len(name) - Len(entry.path)
    {
      if Len(name) > entry.depth then
        ChildIff(entry, name);
        if exists c :: c in entry.children && Carries(c, name) then
          ChildUnique(entry, name);
          var c :| c in entry.children && Carries(c, name);
          ChildFound(entry, name, c);
          FindLongestPrefix(c, name)
        else entry
      else
        assert entry.path == name;
        entry
    }

    // ---------- filling the tree ----------

    /** Adds the entries that are missing on the way to the name; the last one may be useless. */
    method FillTreeToPrefix(name: Name) returns (entry: RibEntry)
      requires TreeOk(None)
      modifies this`nodes, this`contents, this`Repr, Repr`children
      ensures TreeOk(Some(name)) && Grown() && NamedIn(contents) == old(NamedIn(contents))
      ensures view == old(view) && entry.path == name && InTree(entry) && entry in Repr
    {
      assert Unfold(0);
      var curNode := FindLongestPrefix(root, name);
      ghost var added;
      entry, added := FillFrom(curNode, name, curNode.depth + 1);
    }

    /** The loop over depths, from the first one that is missing. */
    method FillFrom(curNode: RibEntry, name: Name, depth: nat) returns (entry: RibEntry, ghost added: set<RibEntry>)
      requires TreeOk(Some(curNode.path)) && On(curNode, name) && depth == Len(curNode.path) + 1 && curNode in Repr
      requires curNode.path == name || Prefix(name, depth) !in nodes
      modifies this`nodes, this`contents, this`Repr, Repr`children
      ensures TreeOk(Some(name)) && Repr == old(Repr) + added && fresh(added)
              && NamedIn(contents) == old(NamedIn(contents))
      ensures view == old(view) && entry.path == name && InTree(entry)
      decreases Len(name) + 1 - depth
    {
      if depth <= Len(name) {
        var newNode := AddNext(curNode, name, depth);
        ghost var more;
        entry, more := FillFrom(newNode, name, depth + 1);
        added := more + {newNode};
      } else {
        entry, added := curNode, {};
      }
    }

    /** One step of the loop. */
    method AddNext(curNode: RibEntry, name: Name, depth: nat) returns (newNode: RibEntry)
      requires TreeOk(Some(curNode.path)) && On(curNode, name) && depth == Len(curNode.path) + 1 <= Len(name)
      requires Prefix(name, depth) !in nodes
      modifies this`nodes, this`contents, this`Repr, curNode`children
      ensures TreeOk(Some(newNode.path)) && Repr == old(Repr) + {newNode} && fresh(newNode)
      ensures NamedIn(contents) == old(NamedIn(contents))
      ensures view == old(view) && On(newNode, name) && Len(newNode.path) == depth
      ensures newNode.path == name || Prefix(name, depth + 1) !in nodes
    {
      assert Unfold(0);
      newNode := new RibEntry.Below(curNode, At(name, depth - 1), depth);
      NextName(root, nodes, curNode, newNode, name, depth);
      AddOk(root, nodes, contents, view, curNode, newNode);
      AddNamed(contents, curNode.path, newNode);
      Link(curNode, newNode);
    }

    method Link(entry: RibEntry, child: RibEntry)
      requires Mirrored() && nodes.Keys == contents.Keys
      requires forall p {:trigger nodes[p]} :: p in nodes ==> nodes[p].path == p
      requires InTree(entry) && child.path !in nodes
      requires child.name == None && child.children == {} && child.routes == [] && child !in Repr
      modifies this`nodes, this`contents, this`Repr, entry`children
      ensures Mirrored() && Repr == old(Repr) + {child}
      ensures nodes == old(nodes)[child.path := child]
      ensures contents == WithChild(old(contents), entry.path, child, child.path)
    {
      entry.children := entry.children + {child};
      nodes := nodes[child.path := child];
      contents := WithChild(contents, entry.path, child, child.path);
      Repr := Repr + {child};
    }

    /** What an entry of the tree holds, against the view. */
    lemma HeldAt(entry: RibEntry, but: Option<Name>)
      requires TreeOk(but) && InTree(entry)
      ensures entry.routes == RoutesAt(view, entry.path) && UniqueKeys(entry.routes)
      ensures entry.name == None || entry.name == Some(entry.path)
      ensures entry.routes != [] ==> entry.name.Some?
      ensures entry.routes == [] ==> entry.path !in view
    {
      assert Unfold(0);
      assert EntryOk(contents[entry.path], view, entry.path);
    }

    // ---------- pruning ----------

    /** The entry holds nothing any more. */
    ghost predicate Emptied(entry: RibEntry)
      reads entry
    {
      entry.children == {} && entry.routes == [] && (entry.name == None || entry.name == Some(entry.path))
    }

    /** The entries that were in `before` and have gone from `after` hold nothing. */
    ghost predicate GoneEmptied(before: Nodes, after: Nodes)
      reads this`Repr, Repr
    {
      forall q :: q in before && q !in after ==> before[q] in Repr && Emptied(before[q])
    }

    /** The entry was in the tree `before`; whatever has gone from it since holds nothing. */
    ghost predicate Was(before: Nodes, entry: RibEntry)
      reads this`nodes, this`Repr, Repr
    {
      && entry.path in before && before[entry.path] == entry
      && PathsOk(root, before) && Within(before, nodes) && GoneEmptied(before, nodes)
    }

    /** Every entry of the representation that is out of the tree now, and was in it or empty
        before, holds nothing. */
    twostate predicate Settled()
      reads this`nodes, this`Repr, Repr
    {
      Repr == old(Repr) && forall e :: e in Repr ==> SettledAt(e)
    }

    twostate predicate SettledAt(e: RibEntry)
      reads this`nodes, e
    {
      (old(InTree(e)) || old(Emptied(e))) && !InTree(e) ==> Emptied(e)
    }

    twostate lemma GoneSettled()
      requires Settled() && old(Mirrored()) && old(PathsOk(root, nodes))
      ensures GoneEmptied(old(nodes), nodes)
    {
      forall q | q in old(nodes) && q !in nodes ensures old(nodes)[q] in Repr && Emptied(old(nodes)[q]) {
        assert SettledAt(old(nodes)[q]);
      }
    }

    /** The tree is in order but perhaps for one entry that was in it, and may have become useless. */
    ghost predicate Prunable(entry: RibEntry, before: Nodes)
      reads this, Repr
    {
      && TreeOk(Some(entry.path)) && Was(before, entry)
      && (!InTree(entry) ==> LeavesOk(contents, None))
    }

    /** Takes out the entry if it is useless, and then each ancestor that becomes useless. Nothing
        happens for an entry that was taken out before. */
    method PruneIfEmpty(entry: RibEntry, ghost before: Nodes)
      requires Prunable(entry, before)
      modifies this`nodes, this`contents, Repr`children
      ensures TreeOk(None) && view == old(view)
      ensures Dropped(old(nodes), nodes, entry.path) && Settled()
      decreases Len(entry.path)
    {
      assert Unfold(0);
      assert Hangs(before, entry.path);
      if entry.parent != null && |entry.children| == 0 && |entry.routes| == 0 {
        var parent := entry.parent;
        if entry in parent.children {
          InParent(entry, before);
          TakeOut(entry);
        } else {
          NotInParent(entry, before);
          PruneIfEmpty(parent, before);
        }
      } else {
        PruneDone(entry);
      }
    }

    /** The case of an entry in the tree: it goes, and then its parent is looked at. */
    method TakeOut(entry: RibEntry)
      requires TreeOk(Some(entry.path)) && InTree(entry)
      requires entry.parent != null && entry.children == {} && entry.routes == []
      modifies this`nodes, this`contents, Repr`children
      ensures TreeOk(None) && view == old(view)
      ensures Dropped(old(nodes), nodes, entry.path) && Settled()
      decreases Len(entry.path), 0
    {
      assert Unfold(0);
      assert Hangs(nodes, entry.path);
      HeldAt(entry, Some(entry.path));
      ghost var nodes0 := nodes;
      Unlink(entry);
      ghost var nodes1 := nodes;
      PruneIfEmpty(entry.parent, nodes1);
      DroppedMore(nodes0, nodes1, nodes, entry.path);
    }

    lemma InParent(entry: RibEntry, before: Nodes)
      requires Sound(root, nodes, contents, view, Some(entry.path)) && Mirrored() && Was(before, entry)
      requires entry.parent != null && entry in entry.parent.children
      ensures InTree(entry)
    {
      assert Hangs(before, entry.path);
      var p := entry.path.prefix;
      if p in nodes {
        assert IsChild(nodes, entry, p);
      }
    }

    lemma NotInParent(entry: RibEntry, before: Nodes)
      requires Sound(root, nodes, contents, view, Some(entry.path)) && Mirrored() && Was(before, entry)
      requires !InTree(entry) ==> LeavesOk(contents, None)
      requires entry.parent != null && entry !in entry.parent.children
      ensures !InTree(entry) && LeavesOk(contents, None)
      ensures Was(before, entry.parent) && entry.parent.path == entry.path.prefix && entry.path != Root
    {
      assert Hangs(before, entry.path) && Hangs(nodes, entry.path) && InList(nodes, contents, entry.path);
    }

    lemma PruneDone(entry: RibEntry)
      requires TreeOk(Some(entry.path)) && (InTree(entry) || LeavesOk(contents, None))
      requires entry.parent == null || entry.children != {} || entry.routes != []
      ensures TreeOk(None)
    {
      assert Unfold(0);
      assert Hangs(nodes, entry.path);
    }

    method Unlink(entry: RibEntry)
      requires InTree(entry) && entry.parent != null && entry.children == {} && entry.routes == []
      requires TreeOk(Some(entry.path))
      modifies this`nodes, this`contents, entry.parent`children
      ensures TreeOk(Some(entry.parent.path)) && view == old(view)
      ensures nodes == old(nodes) - {entry.path}
      ensures InTree(entry.parent) && entry.path == Under(entry.parent.path, entry.component)
      ensures Settled()
    {
      assert Unfold(0);
      assert Hangs(nodes, entry.path);
      DropOk(root, nodes, contents, view, entry.path);
      UnlinkStore(entry);
    }

    method UnlinkStore(entry: RibEntry)
      requires Mirrored() && InTree(entry) && entry.path != Root && entry.path.prefix in nodes
      requires forall p {:trigger nodes[p]} :: p in nodes ==> nodes[p].path == p
      requires entry.parent == nodes[entry.path.prefix] && entry.children == {} && entry.routes == []
      modifies this`nodes, this`contents, entry.parent`children
      ensures Mirrored()
      ensures nodes == old(nodes) - {entry.path}
      ensures contents == WithoutChild(old(contents), entry.path, entry)
    {
      entry.parent.children := entry.parent.children - {entry};
      nodes := nodes - {entry.path};
      contents := WithoutChild(contents, entry.path, entry);
    }

    // ---------- changing routes ----------

    /** Replaces the routes of an entry. */
    method StoreRoutes(entry: RibEntry, routes: seq<Route>)
      requires TreeOk(Some(entry.path)) && InTree(entry)
      requires UniqueKeys(routes) && (routes != [] ==> entry.name == Some(entry.path))
      modifies this`contents, this`view, entry`routes
      ensures TreeOk(Some(entry.path)) && NamedIn(contents) == old(NamedIn(contents))
      ensures view == WithRoutes(old(view), entry.path, routes)
      ensures entry.routes == routes
    {
      assert Unfold(0);
      ghost var p := entry.path;
      ghost var c := contents[p].(routes := routes);
      NamedStored(contents, p, c);
      StoreRoutesOnly(entry, routes);
      StoreOk(root, nodes, old(contents), old(view), p, c, contents, view);
    }

    method StoreRoutesOnly(entry: RibEntry, routes: seq<Route>)
      requires Mirrored() && InTree(entry) && entry.path in contents
      requires forall p {:trigger nodes[p]} :: p in nodes ==> nodes[p].path == p
      modifies this`contents, this`view, entry`routes
      ensures Mirrored() && entry.routes == routes
      ensures contents == old(contents)[entry.path := old(contents)[entry.path].(routes := routes)]
      ensures view == WithRoutes(old(view), entry.path, routes)
    {
      entry.routes := routes;
      view := WithRoutes(view, entry.path, routes);
      contents := contents[entry.path := contents[entry.path].(routes := routes)];
    }

    /** Gives an entry its name, unless it has it. */
    method StoreName(entry: RibEntry, name: Name)
      requires TreeOk(Some(entry.path)) && InTree(entry) && entry.path == name
      modifies this`contents, entry`name
      ensures TreeOk(Some(entry.path)) && entry.name == Some(name)
      ensures NamedIn(contents) == old(NamedIn(contents)) + {name}
    {
      assert Unfold(0);
      HeldAt(entry, Some(entry.path));
      ghost var c := contents[name].(name := Some(name));
      NamedStored(contents, name, c);
      StoreNameOnly(entry, name);
      assert WithRoutes(view, name, c.routes) == view by {
        assert EntryOk(old(contents)[name], view, name);
      }
      StoreOk(root, nodes, old(contents), view, name, c, contents, view);
    }

    method StoreNameOnly(entry: RibEntry, name: Name)
      requires Mirrored() && InTree(entry) && entry.path in contents && entry.path == name
      requires forall p {:trigger nodes[p]} :: p in nodes ==> nodes[p].path == p
      requires entry.name == None || entry.name == Some(name)
      modifies this`contents, entry`name
      ensures Mirrored() && entry.name == Some(name)
      ensures contents == old(contents)[name := old(contents)[name].(name := Some(name))]
    {
      contents := contents[name := contents[name].(name := Some(name))];
      if entry.name == None {
        entry.name := Some(name);
      }
    }

    /** Passes the routes of an entry on to the FIB, which is right for all other names. */
    method UpdateNexthops(entry: RibEntry, ghost was: Rib)
      requires fib.Valid() && fib.fib.hops == Flatten(was) && fib.hashed.hops == HashHops(was, Lost())
      requires entry.name == None || entry.name == Some(entry.path)
      requires entry.name == None ==> entry.path !in was && entry.routes == []
      requires view == WithRoutes(was, entry.path, entry.routes)
      modifies fib
      ensures FibOk() && Lost() == (entry.name == None || (old(Lost()) && entry.path != Root))
    {
      FlattenWith(was, entry.path, entry.routes);
      HashHopsWith(was, Lost(), entry.path, entry.routes);
      NoMinCosts(entry.routes);
      fib.UpdateNexthops(entry.name, entry.routes);
    }

    // ---------- the public operations ----------

    /** Adds a route, or updates the one with the same face and origin. */
    method AddRoute(name: Name, route: Route)
      requires Valid()
      modifies this, Repr, fib
      ensures Valid() && Now() == Next(old(Now()), RibAdd(name, route))
      ensures RibDid(old(view), view, RibAdd(name, route)) && name in view && route in view[name]
      ensures fresh(Repr - old(Repr))
    {
      ViewFormed();
      AddEncRoute(name, route);
      DidNext(old(Now()), Now(), RibAdd(name, route));
    }

    method AddEncRoute(name: Name, route: Route)
      requires Valid()
      modifies this, Repr, fib
      ensures Valid() && Now() == Next(old(Now()), RibAdd(name, route))
      ensures fresh(Repr - old(Repr))
    {
      ghost var was := view;
      var node := AddToTree(name, route);
      UpdateNexthops(node, was);
      NextAdd(old(Now()), name, route, Now());
    }

    method AddToTree(name: Name, route: Route) returns (node: RibEntry)
      requires TreeOk(None)
      modifies this`nodes, this`contents, this`Repr, this`view, Repr
      ensures TreeOk(None) && fresh(Repr - old(Repr))
      ensures node.path == name && node.name == Some(name)
      ensures node.routes == SetRoute(RoutesAt(old(view), name), route)
      ensures view == WithRoutes(old(view), name, node.routes)
      ensures NamedIn(contents) == old(NamedIn(contents)) + {name}
    {
      node := FillTreeToPrefix(name);
      NameAndRoute(node, name, route);
    }

    method NameAndRoute(node: RibEntry, name: Name, route: Route)
      requires TreeOk(Some(name)) && InTree(node) && node.path == name
      modifies this`contents, this`view, node`name, node`routes
      ensures TreeOk(None) && node.name == Some(name)
      ensures node.routes == SetRoute(RoutesAt(old(view), name), route)
      ensures view == WithRoutes(old(view), name, node.routes)
      ensures NamedIn(contents) == old(NamedIn(contents)) + {name}
    {
      assert Unfold(0);
      StoreName(node, name);
      HeldAt(node, Some(name));
      var routes := SetRouteLoop(node.routes, route);
      SetRouteKeepsUnique(node.routes, route);
      StoreRoutes(node, routes);
      NotUseless(node);
    }

    /** An entry with a route is no exception to the rule. */
    lemma NotUseless(entry: RibEntry)
      requires InTree(entry) && TreeOk(Some(entry.path)) && entry.routes != []
      ensures TreeOk(None)
    {
      assert Unfold(0);
    }

    /** The loop of AddEncRoute. */
    static method SetRouteLoop(routes: seq<Route>, route: Route) returns (routes': seq<Route>)
      ensures routes' == SetRoute(routes, route)
    {
      var i := 0;
      while i < |routes|
        invariant i <= |routes|
        invariant forall j :: 0 <= j < i ==> !SameKey(routes[j], route.face, route.origin)
      {
        if SameKey(routes[i], route.face, route.origin) {
          KeyIndexFound(routes, route.face, route.origin, i);
          return routes[i := route];
        }
        i := i + 1;
      }
      KeyIndexFound(routes, route.face, route.origin, i);
      routes' := routes + [route];
    }

    /** Removes the route with this face and origin, if there is one. */
    method RemoveRoute(name: Name, face: FaceId, origin: nat)
      requires Valid()
      modifies this, Repr`children, Repr`routes, fib
      ensures Valid() && Repr == old(Repr) && Now() == Next(old(Now()), RibRemove(name, face, origin))
      ensures RibDid(old(view), view, RibRemove(name, face, origin))
    {
      ViewFormed();
      RemoveRouteEnc(name, face, origin);
      DidNext(old(Now()), Now(), RibRemove(name, face, origin));
    }

    method RemoveRouteEnc(name: Name, face: FaceId, origin: nat)
      requires Valid()
      modifies this, Repr`children, Repr`routes, fib
      ensures Valid() && Repr == old(Repr) && Now() == Next(old(Now()), RibRemove(name, face, origin))
    {
      var entry := Lookup(name);
      if entry == null {
        NothingToRemove(view, name, face, origin);
        NamesLeft(nodes);
      } else {
        RemoveFrom(entry, face, origin);
      }
      NextRemove(old(Now()), name, face, origin, Now());
    }

    lemma ViewFormed()
      requires TreeOk(None)
      ensures RibSpec.WellFormed(view)
    {
      assert Unfold(0);
    }

    /** The entry for a name, or null. */
    method Lookup(name: Name) returns (entry: RibEntry?)
      requires TreeOk(None)
      ensures entry == null <==> !IsEntry(view, name)
      ensures entry != null ==> InTree(entry) && entry.path == name
      ensures entry == null ==> name !in view
    {
      assert Unfold(0);
      EntriesAre(root, nodes, contents, view, name);
      entry := FindExactMatch(root, name);
    }

    method RemoveFrom(entry: RibEntry, face: FaceId, origin: nat)
      requires Valid() && InTree(entry)
      modifies this`nodes, this`contents, this`view, Repr`children, Repr`routes, fib
      ensures Valid() && view == RibSpec.Remove(old(view), entry.path, face, origin)
      ensures NamedIn(contents) == Entries(view, old(NamedIn(contents)))
      ensures Lost() == (entry.path !in old(NamedIn(contents)) || (old(Lost()) && entry.path != Root))
    {
      assert Unfold(0);
      ghost var before := nodes;
      HeldAt(entry, None);
      var i := FirstKey(entry.routes, face, origin);
      RemoveAt(entry, i);
      NamesLeft(before);
    }

    /** The entries that are left have the names that they had. */
    twostate lemma NamesLeft(before: Nodes)
      requires old(TreeOk(None)) && TreeOk(None) && before == old(nodes) && Within(before, nodes)
      requires forall e :: e in old(Repr) ==> e.name == old(e.name)
      ensures NamedIn(contents) == Entries(view, old(NamedIn(contents)))
    {
      assert Unfold(0);
      forall p ensures p in NamedIn(contents) <==> p in Entries(view, old(NamedIn(contents))) {
        EntriesAre(root, nodes, contents, view, p);
        if p in nodes {
          assert Mirrors(nodes[p], contents[p]) && old(Mirrors(nodes[p], contents[p]));
        }
      }
    }

    static method FirstKey(routes: seq<Route>, face: FaceId, origin: nat) returns (i: nat)
      ensures i == KeyIndex(routes, face, origin)
    {
      i := 0;
      while i < |routes| && !SameKey(routes[i], face, origin)
        invariant i <= |routes|
        invariant forall j :: 0 <= j < i ==> !SameKey(routes[j], face, origin)
      {
        i := i + 1;
      }
      KeyIndexFound(routes, face, origin, i);
    }

    static method FirstOnFace(routes: seq<Route>, face: FaceId) returns (i: nat)
      ensures i == RibSpec.FaceIndex(routes, face)
    {
      i := 0;
      while i < |routes| && routes[i].face != face
        invariant i <= |routes|
        invariant forall j :: 0 <= j < i ==> routes[j].face != face
      {
        i := i + 1;
      }
      FaceIndexFound(routes, face, i);
    }

    /** Takes one route (or none) out of an entry's list, tells the FIB, and prunes. */
    method RemoveAt(entry: RibEntry, i: nat)
      requires Valid() && InTree(entry) && i <= |entry.routes|
      modifies this`nodes, this`contents, this`view, Repr`children, Repr`routes, fib
      ensures Valid() && view == WithRoutes(old(view), entry.path, RibSpec.Without(old(entry.routes), i))
      ensures Within(old(nodes), nodes)
      ensures Lost() == (entry.name == None || (old(Lost()) && entry.path != Root))
    {
      ghost var before := nodes;
      DropAndTell(entry, i);
      PruneIfEmpty(entry, before);
    }

    /** The first two of these. */
    method DropAndTell(entry: RibEntry, i: nat)
      requires Valid() && InTree(entry) && i <= |entry.routes|
      modifies this`contents, this`view, Repr`routes, fib
      ensures Prunable(entry, nodes) == true && FibOk() && nodes == old(nodes)
      ensures view == WithRoutes(old(view), entry.path, RibSpec.Without(old(entry.routes), i))
      ensures Lost() == (entry.name == None || (old(Lost()) && entry.path != Root))
    {
      HeldAt(entry, None);
      assert entry in Repr by {
        assert Unfold(0);
      }
      DropRoute(entry, i);
      HeldAt(entry, Some(entry.path));
      Itself(entry);
      UpdateNexthops(entry, old(view));
    }

    /** An entry in the tree may be pruned if it is useless. */
    lemma Itself(entry: RibEntry)
      requires TreeOk(Some(entry.path)) && InTree(entry)
      ensures Prunable(entry, nodes)
    {
      assert Unfold(0);
    }

    method DropRoute(entry: RibEntry, i: nat)
      requires TreeOk(None) && InTree(entry) && i <= |entry.routes|
      modifies this`contents, this`view, entry`routes
      ensures TreeOk(Some(entry.path)) && Settled()
      ensures entry.routes == RibSpec.Without(old(entry.routes), i)
      ensures nodes == old(nodes) && view == WithRoutes(old(view), entry.path, entry.routes)
    {
      assert Unfold(0);
      HeldAt(entry, None);
      WithoutKeepsUnique(entry.routes, i);
      StoreRoutes(entry, RibSpec.Without(entry.routes, i));
    }

    // ---------- cleaning up after a face ----------

    /** Removes, at every entry, the first route on the face. */
    method CleanUp(face: FaceId)
      requires Valid()
      modifies this, Repr`children, Repr`routes, fib
      ensures Valid() && Repr == old(Repr) && Now() == Next(old(Now()), RibCleanUp(face))
      ensures RibDid(old(view), view, RibCleanUp(face))
    {
      ViewFormed();
      CleanUpAll(face);
      DidNext(old(Now()), Now(), RibCleanUp(face));
    }

    method CleanUpAll(face: FaceId)
      requires Valid()
      modifies this, Repr`children, Repr`routes, fib
      ensures Valid() && Repr == old(Repr) && Now() == Next(old(Now()), RibCleanUp(face))
    {
      CleanUpRoot(face);
      NextCleanUp(old(Now()), face, Now());
    }

    method CleanUpRoot(face: FaceId)
      requires Valid()
      modifies this`nodes, this`contents, this`view, Repr`children, Repr`routes, fib
      ensures Valid() && view == CleanAt(old(view), Below(old(view).Keys, Root), face)
      ensures NamedIn(contents) == Entries(view, old(NamedIn(contents)))
      ensures Lost() == (old(Lost()) && Root !in old(NamedIn(contents)))
    {
      assert Unfold(0);
      ghost var before := nodes;
      HeldAt(root, None);
      CleanUpFace(root, face, Deepest(nodes.Keys));
      NamesLeft(before);
    }

    /** Children first, in any order; then the entry itself, which pruning may have taken out of
        the tree by then. */
    method CleanUpFace(entry: RibEntry, face: FaceId, ghost bound: nat)
      requires Valid() && InTree(entry)
      requires forall p :: p in nodes ==> Len(p) <= bound
      modifies this`nodes, this`contents, this`view, Repr`children, Repr`routes, fib
      ensures Valid() && view == CleanAt(old(view), Below(old(view).Keys, entry.path), face)
      ensures DroppedNear(old(nodes), nodes, entry.path) && Settled() && LostUnless(entry)
      decreases bound - Len(entry.path), 1, 0
    {
      assert Unfold(0);
      ghost var nodes0 := nodes;
      ChildrenBelow(entry);
      CleanChildren(entry, entry.children, face, bound);
      ghost var nodes1, view1 := nodes, view;
      GoneSettled();
      CleanSelf(entry, face, nodes0);
      CleanRest(old(view), view1, entry.path, face);
    }

    /** Only an update of the root gets its nexthops back. */
    twostate predicate LostUnless(entry: RibEntry)
      reads fib
    {
      Lost() == (old(Lost()) && (entry.path != Root || old(entry.name) == None))
    }

    /** The entry after its children: nothing happens at an entry that never had a name. */
    method CleanSelf(entry: RibEntry, face: FaceId, ghost before: Nodes)
      requires Valid() && Was(before, entry)
      modifies this`nodes, this`contents, this`view, Repr`children, Repr`routes, fib
      ensures Valid() && view == CleanAt(old(view), {entry.path}, face)
      ensures Dropped(old(nodes), nodes, entry.path) && Settled() && LostUnless(entry)
    {
      assert Unfold(0);
      HeldOrGone(entry, before);
      if entry.name == None {
        CleanOne(view, entry.path, face);
      } else {
        CleanEntry(entry, face, before);
      }
    }

    /** The children of an entry stand for all names below it. */
    lemma ChildrenBelow(entry: RibEntry)
      requires TreeOk(None) && InTree(entry)
      ensures forall c :: c in entry.children ==> InTree(c) && c.path != Root && c.path.prefix == entry.path
      ensures BelowAny(view.Keys, entry.children) == Below(view.Keys, entry.path) - {entry.path}
    {
      assert Unfold(0);
      var p := entry.path;
      forall c | c in entry.children ensures InTree(c) && c.path != Root && c.path.prefix == p {
        assert IsChild(nodes, c, p);
      }
      forall n ensures n in BelowAny(view.Keys, entry.children) <==> n in Below(view.Keys, p) && n != p {
        if n in view && n != p && IsPrefix(p, n) {
          var q := Prefix(n, Len(p) + 1);
          NextPrefix(n, Len(p));
          PrefixesOn(root, nodes, n, Len(p) + 1);
          assert InList(nodes, contents, q);
          assert nodes[q] in entry.children && IsPrefix(nodes[q].path, n);
        }
        if n in BelowAny(view.Keys, entry.children) {
          var c :| c in entry.children && IsPrefix(c.path, n);
          PrefixOfPrefix(n, Len(c.path), Len(p));
        }
      }
    }

    method CleanEntry(entry: RibEntry, face: FaceId, ghost before: Nodes)
      requires Valid() && Was(before, entry) && entry.name == Some(entry.path)
      requires entry.routes == RoutesAt(view, entry.path)
      modifies this`nodes, this`contents, this`view, Repr`children, Repr`routes, fib
      ensures Valid() && view == CleanAt(old(view), {entry.path}, face)
      ensures Dropped(old(nodes), nodes, entry.path) && Settled() && LostUnless(entry)
    {
      assert Unfold(0);
      CleanOne(view, entry.path, face);
      CutAndTell(entry, face, before);
      PruneIfEmpty(entry, before);
    }

    /** Takes the first route on the face out, if there is one, and tells the FIB. */
    method CutAndTell(entry: RibEntry, face: FaceId, ghost before: Nodes)
      requires Valid() && Was(before, entry) && entry.name == Some(entry.path)
      requires entry.routes == RoutesAt(view, entry.path)
      modifies this`contents, this`view, Repr`routes, fib
      ensures FibOk() && nodes == old(nodes) && LostUnless(entry)
      // equations, so that what the FIB does not touch is carried over whole
      ensures Prunable(entry, before) == true
      ensures Settled() == true
      ensures view == WithRoutes(old(view), entry.path, DropFirst(RoutesAt(old(view), entry.path), face))
    {
      var i := FirstOnFace(entry.routes, face);
      SameRoutes(view, entry.path);
      CutRoute(entry, i, before);
      Tell(entry, old(view), before);
    }

    /** Tells the FIB while the entry may be useless. */
    method Tell(entry: RibEntry, ghost was: Rib, ghost before: Nodes)
      requires fib.Valid() && fib.fib.hops == Flatten(was) && fib.hashed.hops == HashHops(was, Lost())
      requires entry.name == Some(entry.path) && view == WithRoutes(was, entry.path, entry.routes)
      requires Prunable(entry, before) == true
      modifies fib
      ensures FibOk() && LostUnless(entry) && Prunable(entry, before) == true
    {
      UpdateNexthops(entry, was);
    }

    /** An entry has the routes the view says, in the tree or not. */
    lemma HeldOrGone(entry: RibEntry, before: Nodes)
      requires TreeOk(None) && Was(before, entry)
      ensures entry.routes == RoutesAt(view, entry.path)
      ensures entry.name == None || entry.name == Some(entry.path)
      ensures entry.routes != [] ==> entry.name.Some?
    {
      assert Unfold(0);
      if InTree(entry) {
        HeldAt(entry, None);
      }
    }

    /** Takes the route out, if the index is that of one. */
    method CutRoute(entry: RibEntry, i: nat, ghost before: Nodes)
      requires TreeOk(None) && Was(before, entry) && i <= |entry.routes|
      requires entry.routes == RoutesAt(view, entry.path) && view == WithRoutes(view, entry.path, entry.routes)
      modifies this`contents, this`view, Repr`routes
      ensures Prunable(entry, before) == true && Settled() == true && nodes == old(nodes)
      ensures entry.routes == RibSpec.Without(old(entry.routes), i)
      ensures view == WithRoutes(old(view), entry.path, entry.routes)
    {
      assert Unfold(0);
      if i < |entry.routes| {
        DropRoute(entry, i);
        forall q | q in before && q !in nodes ensures before[q] in Repr && Emptied(before[q]) {
          assert old(Emptied(before[q])) && before[q] != entry;
        }
        assert Was(before, entry) == true;
      }
    }

    /** The loop over the children. */
    method CleanChildren(entry: RibEntry, rest: set<RibEntry>, face: FaceId, ghost bound: nat)
      requires Valid()
      requires forall c :: c in rest ==> InTree(c) && c.path != Root && c.path.prefix == entry.path
      requires forall p :: p in nodes ==> Len(p) <= bound
      modifies this`nodes, this`contents, this`view, Repr`children, Repr`routes, fib
      ensures Valid() && view == CleanAt(old(view), BelowAny(old(view).Keys, rest), face)
      ensures DroppedNear(old(nodes), nodes, entry.path) && Settled() && Lost() == old(Lost())
      decreases bound - Len(entry.path), 0, |rest|
    {
      assert Unfold(0);
      if rest == {} {
        NoneBelow(view, rest, face);
      } else {
        var child :| child in rest;
        CleanUpFace(child, face, bound);
        ghost var nodes1, view1 := nodes, view;
        SiblingsStay(old(nodes), nodes1, child, rest);
        CleanChildren(entry, rest - {child}, face, bound);
        NearMore(old(nodes), nodes1, nodes, child.path);
        BelowMore(old(view), view1, child, rest, face);
      }
    }
  }
}
