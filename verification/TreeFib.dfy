/** The name-tree FIB-Strategy table: entries linked to their parents and children. */
module TreeFib {
  import opened Names
  import opened FibSpec

  class TreeEntry {
    const component: Component
    const depth: nat
    const parent: TreeEntry?
    /** The name that the components on the way from the root spell. */
    ghost const path: Name

    var name: Option<Name>
    var nexthops: seq<NextHop>
    var strategy: Option<Name>
    var children: seq<TreeEntry>

    constructor AtRoot(strategy: Name)
      ensures path == Root && depth == 0 && parent == null && name == Some(Root)
      ensures children == [] && nexthops == [] && this.strategy == Some(strategy)
    {
      component := Component(0, []);
      depth := 0;
      parent := null;
      path := Root;
      name, nexthops, this.strategy, children := Some(Root), [], Some(strategy), [];
    }

    constructor Below(parent: TreeEntry, component: Component, depth: nat)
      ensures this.path == Under(parent.path, component) && this.component == component
      ensures this.depth == depth && this.parent == parent
      ensures children == [] && nexthops == [] && strategy == None && name == None
    {
      this.component := component;
      this.depth := depth;
      this.parent := parent;
      this.path := Under(parent.path, component);
      name, nexthops, strategy, children := None, [], None, [];
    }
  }

  // ---------- what hangs in the tree, as values ----------

  /** The entries in the tree, by the name they stand for. */
  type Nodes = map<Name, TreeEntry>

  /** The changing part of an entry. */
  datatype Content = Content(children: seq<TreeEntry>, nexthops: seq<NextHop>, strategy: Option<Name>)

  const EMPTY: Content := Content([], [], None)

  type Contents = map<Name, Content>

  /** No entry occurs twice. */
  ghost predicate Distinct(s: seq<TreeEntry>) {
    forall e :: e in s ==> multiset(s)[e] == 1
  }

  /** Removing one element from a list without repetition removes all of it. */
  lemma DistinctShift(s: seq<TreeEntry>, i: nat)
    requires Distinct(s) && i < |s|
    ensures Distinct(s[..i] + s[i + 1..])
    ensures forall x :: x in s[..i] + s[i + 1..] <==> x in s && x != s[i]
  {
    var s' := s[..i] + s[i + 1..];
    assert s == s[..i] + [s[i]] + s[i + 1..];
    assert multiset(s) == multiset(s') + multiset{s[i]};
    forall x ensures x in s' <==> x in s && x != s[i] {
      assert x in s' <==> x in multiset(s');
      assert x in s <==> x in multiset(s);
    }
  }

  /** The entry at p knows its component and hangs below the entry at p.prefix. */
  ghost predicate Hangs(nodes: Nodes, p: Name)
  {
    p in nodes && p != Root ==>
      p.prefix in nodes && nodes[p].parent == nodes[p.prefix] && nodes[p].component == p.last
  }

  /** Entries stand for distinct names and know their depth, component and parent. */
  ghost predicate PathsOk(root: TreeEntry, nodes: Nodes)
  {
    && Root in nodes && nodes[Root] == root && root.parent == null
    && (forall p :: p in nodes ==> nodes[p].path == p && nodes[p].depth == Len(p))
    && (forall p {:trigger Hangs(nodes, p)} :: Hangs(nodes, p))
  }

  /** `child` is an entry of the tree, right below the name. */
  ghost predicate IsChild(nodes: Nodes, child: TreeEntry, p: Name)
  {
    child.path in nodes && nodes[child.path] == child && child.path != Root && child.path.prefix == p
  }

  /** The entry at p is in the children list of the entry at p.prefix. */
  ghost predicate InList(nodes: Nodes, contents: Contents, p: Name)
  {
    p in nodes && p != Root && p.prefix in contents ==> nodes[p] in contents[p.prefix].children
  }

  /** The children lists hold exactly the entries of the tree, each once. */
  ghost predicate ChildrenOk(nodes: Nodes, contents: Contents)
  {
    && contents.Keys == nodes.Keys
    && (forall p :: p in contents ==> Distinct(contents[p].children))
    && (forall p, c :: p in contents && c in contents[p].children ==> IsChild(nodes, c, p))
    && (forall p {:trigger InList(nodes, contents, p)} :: InList(nodes, contents, p))
  }

  ghost predicate EntryOk(c: Content, view: Fib, p: Name) {
    Lists(c.nexthops, HopsAt(view, p)) && c.strategy == StrategyAt(view, p)
  }

  /** The entries say about each name what the view says. */
  ghost predicate ViewOk(contents: Contents, view: Fib)
  {
    && WellFormed(view)
    && view.hops.Keys <= contents.Keys
    && view.strategies.Keys <= contents.Keys
    && (forall p :: p in contents ==> EntryOk(contents[p], view, p))
  }

  lemma {:induction false} PrefixesOn(root: TreeEntry, nodes: Nodes, p: Name, k: nat)
    requires PathsOk(root, nodes) && k <= Len(p)
    ensures p in nodes ==> Prefix(p, k) in nodes
    decreases Len(p)
  {
    if k < Len(p) {
      assert Hangs(nodes, p);
      PrefixesOn(root, nodes, p.prefix, k);
    }
  }

  /** `c` replaces the contents at p; only the view at p changes with it. */
  lemma StoreView(contents: Contents, view: Fib, p: Name, c: Content, contents': Contents, view': Fib)
    requires ViewOk(contents, view)
    requires p in contents && EntryOk(c, view', p) && contents' == contents[p := c]
    requires WellFormed(view') && OnlyAt(view, view', p)
    ensures ViewOk(contents', view')
  {
  }

  lemma StoreChildren(nodes: Nodes, contents: Contents, p: Name, c: Content, contents': Contents)
    requires ChildrenOk(nodes, contents)
    requires p in contents && c.children == contents[p].children && contents' == contents[p := c]
    ensures ChildrenOk(nodes, contents')
  {
    forall q ensures InList(nodes, contents', q) {
      assert InList(nodes, contents, q);
    }
  }

  lemma StoreHopsOk(contents: Contents, view: Fib, p: Name, c: Content, h: HopMap, contents': Contents, view': Fib)
    requires ViewOk(contents, view) && p in contents
    requires Lists(c.nexthops, h) && c == contents[p].(nexthops := c.nexthops)
    requires contents' == contents[p := c] && view' == WithHops(view, p, h)
    ensures ViewOk(contents', view')
  {
    WithHopsMeaning(view, p, h);
    assert EntryOk(contents[p], view, p);
    StoreView(contents, view, p, c, contents', view');
  }

  lemma StoreStrategyOk(contents: Contents, view: Fib, p: Name, c: Content, contents': Contents, view': Fib)
    requires ViewOk(contents, view) && p in contents
    requires c == contents[p].(strategy := c.strategy)
    requires contents' == contents[p := c] && view' == FibSpec.SetStrategy(view, p, c.strategy)
    ensures ViewOk(contents', view')
  {
    SetStrategyMeaning(view, p, c.strategy);
    assert EntryOk(contents[p], view, p);
    StoreView(contents, view, p, c, contents', view');
  }

  /** The contents once `child` hangs below the entry at q. */
  function WithChild(contents: Contents, q: Name, child: TreeEntry, path: Name): Contents
    requires q in contents
  {
    contents[path := EMPTY][q := contents[q].(children := contents[q].children + [child])]
  }

  lemma AddPaths(root: TreeEntry, nodes: Nodes, entry: TreeEntry, child: TreeEntry)
    requires PathsOk(root, nodes)
    requires entry.path in nodes && nodes[entry.path] == entry && child.path !in nodes
    requires child.path == Under(entry.path, child.component) && child.parent == entry && child.depth == Len(child.path)
    ensures PathsOk(root, nodes[child.path := child])
  {
    var nodes' := nodes[child.path := child];
    forall p ensures Hangs(nodes', p) {
      assert Hangs(nodes, p);
    }
  }

  lemma AddChildren(nodes: Nodes, contents: Contents, entry: TreeEntry, child: TreeEntry)
    requires ChildrenOk(nodes, contents)
    requires forall p {:trigger Hangs(nodes, p)} :: Hangs(nodes, p)
    requires entry.path in nodes && nodes[entry.path] == entry && child.path !in nodes
    requires child.path != Root && child.path.prefix == entry.path
    ensures ChildrenOk(nodes[child.path := child], WithChild(contents, entry.path, child, child.path))
  {
    var q := entry.path;
    var nodes' := nodes[child.path := child];
    var contents' := WithChild(contents, q, child, child.path);
    var kids := contents[q].children;
    assert contents'[q].children == kids + [child];
    forall p, c | p in contents' && c in contents'[p].children ensures IsChild(nodes', c, p) {
      if c != child {
        assert p in contents && c in contents[p].children;
      }
    }
    forall p ensures InList(nodes', contents', p) {
      assert InList(nodes, contents, p) && Hangs(nodes, p);
    }
    assert child !in kids by {
      assert forall c :: c in kids ==> IsChild(nodes, c, q);
    }
    assert multiset(kids + [child]) == multiset(kids) + multiset{child};
  }

  lemma AddView(contents: Contents, view: Fib, q: Name, child: TreeEntry, path: Name)
    requires ViewOk(contents, view) && q in contents && path !in contents
    ensures ViewOk(WithChild(contents, q, child, path), view)
  {
  }

  /** The step from one prefix of a name to the next. */
  lemma NextName(root: TreeEntry, nodes: Nodes, entry: TreeEntry, child: TreeEntry, name: Name, d: nat)
    requires PathsOk(root, nodes) && IsPrefix(entry.path, name)
    requires d == Len(entry.path) + 1 <= Len(name) && Prefix(name, d) !in nodes
    requires child.path == Under(entry.path, child.component) && child.component == At(name, d - 1)
    ensures child.path == Prefix(name, d) && child.path !in nodes
    ensures child.path == name || Prefix(name, d + 1) !in nodes[child.path := child]
  {
    NextPrefix(name, d - 1);
    if d < Len(name) {
      NextPrefix(name, d);
      assert Hangs(nodes, Prefix(name, d + 1));
    }
  }

  lemma NextOk(root: TreeEntry, nodes: Nodes, contents: Contents, view: Fib, entry: TreeEntry, child: TreeEntry)
    requires PathsOk(root, nodes) && ChildrenOk(nodes, contents) && ViewOk(contents, view)
    requires entry.path in nodes && nodes[entry.path] == entry && child.path !in nodes
    requires child.path == Under(entry.path, child.component) && child.parent == entry && child.depth == Len(child.path)
    ensures PathsOk(root, nodes[child.path := child])
    ensures ChildrenOk(nodes[child.path := child], WithChild(contents, entry.path, child, child.path))
    ensures ViewOk(WithChild(contents, entry.path, child, child.path), view)
  {
    AddPaths(root, nodes, entry, child);
    AddChildren(nodes, contents, entry, child);
    AddView(contents, view, entry.path, child, child.path);
  }

  /** The contents once the entry at q is gone and its parent has the children `kids`. */
  function WithoutChild(contents: Contents, q: Name, kids: seq<TreeEntry>): Contents
    requires q != Root && q.prefix in contents
  {
    contents[q.prefix := contents[q.prefix].(children := kids)] - {q}
  }

  /** The entry at q is in the tree, has no children, nexthops or strategy, and is not the root. */
  ghost predicate Prunable(nodes: Nodes, contents: Contents, q: Name)
  {
    q in nodes && q != Root && q.prefix in nodes && q in contents && contents[q] == EMPTY
  }

  lemma DropPaths(root: TreeEntry, nodes: Nodes, contents: Contents, q: Name)
    requires PathsOk(root, nodes) && ChildrenOk(nodes, contents) && Prunable(nodes, contents, q)
    ensures PathsOk(root, nodes - {q})
  {
    forall p ensures Hangs(nodes - {q}, p) {
      assert Hangs(nodes, p) && InList(nodes, contents, p);
    }
  }

  lemma DropChildren(nodes: Nodes, contents: Contents, q: Name, kids: seq<TreeEntry>)
    requires ChildrenOk(nodes, contents) && Prunable(nodes, contents, q)
    requires Distinct(kids) && (forall c :: c in kids <==> c in contents[q.prefix].children && c != nodes[q])
    requires forall p :: p in nodes ==> nodes[p].path == p
    ensures ChildrenOk(nodes - {q}, WithoutChild(contents, q, kids))
  {
    var nodes' := nodes - {q};
    var contents' := WithoutChild(contents, q, kids);
    forall p, c | p in contents' && c in contents'[p].children ensures IsChild(nodes', c, p) {
      assert c in contents[p].children;
      assert IsChild(nodes, c, p);
    }
    forall p ensures InList(nodes', contents', p) {
      assert InList(nodes, contents, p);
    }
  }

  lemma DropView(nodes: Nodes, contents: Contents, view: Fib, q: Name, kids: seq<TreeEntry>)
    requires ViewOk(contents, view) && Prunable(nodes, contents, q) && contents.Keys == nodes.Keys
    ensures ViewOk(WithoutChild(contents, q, kids), view)
  {
    assert EntryOk(contents[q], view, q);
    ListsEmpty([], HopsAt(view, q));
  }

  // ---------- the table ----------

  class FibStrategyTree {
    const root: TreeEntry
    ghost var nodes: Nodes
    ghost var contents: Contents
    ghost var Repr: set<object>
    /** What the table means. */
    ghost var view: Fib

    ghost predicate Mirrors(entry: TreeEntry, c: Content)
      reads entry
    {
      entry.children == c.children && entry.nexthops == c.nexthops && entry.strategy == c.strategy
    }

    /** The entries in the tree hold what `contents` says. */
    ghost predicate Mirrored()
      reads this, Repr
    {
      forall p :: p in nodes ==> p in contents && nodes[p] in Repr && Mirrors(nodes[p], contents[p])
    }

    ghost predicate TreeOk()
      reads this, Repr
    {
      PathsOk(root, nodes) && ChildrenOk(nodes, contents) && Mirrored()
    }

    ghost predicate Valid()
      reads this, Repr
    {
      && this in Repr
      && TreeOk()
      && ViewOk(contents, view)
    }

    /** Only new objects have joined the representation. */
    twostate predicate Grown()
      reads this
    {
      forall o :: o in Repr ==> o in old(Repr) || fresh(o)
    }

    constructor (defaultStrategy: Name)
      ensures Valid() && fresh(Repr)
      ensures view == Initial(defaultStrategy)
    {
      root := new TreeEntry.AtRoot(defaultStrategy);
      new;
      nodes := map[Root := root];
      contents := map[Root := EMPTY.(strategy := Some(defaultStrategy))];
      Repr := {this, root};
      view := Initial(defaultStrategy);
    }

    /** The entry hangs in the tree. */
    ghost predicate InTree(entry: TreeEntry)
      reads this
    {
      entry.path in nodes && nodes[entry.path] == entry
    }

    /** The entry hangs in the tree, at a prefix of the name. */
    ghost predicate On(entry: TreeEntry, name: Name)
      reads this
    {
      entry.path in nodes && nodes[entry.path] == entry && IsPrefix(entry.path, name)
    }

    /** The index of the first child that carries the name's component, or the number of children. */
    function ChildFor(children: seq<TreeEntry>, name: Name, from: nat): (i: nat)
      requires from <= |children|
      ensures from <= i <= |children|
      ensures forall j :: from <= j < i ==> At(name, children[j].depth - 1) != children[j].component
      ensures i < |children| ==> At(name, children[i].depth - 1) == children[i].component
      decreases |children| - from
    {
      if from == |children| then from
      else if At(name, children[from].depth - 1) == children[from].component then from
      else ChildFor(children, name, from + 1)
    }

    lemma ChildFound(entry: TreeEntry, name: Name, c: TreeEntry)
      requires TreeOk() && On(entry, name) && Len(entry.path) < Len(name)
      requires c in entry.children && At(name, c.depth - 1) == c.component
      ensures On(c, name) && Len(c.path) == Len(entry.path) + 1
    {
      assert IsChild(nodes, c, entry.path) && Hangs(nodes, c.path);
      NextPrefix(name, Len(entry.path));
    }

    /** The tree goes on towards the name just when a child carries its next component. */
    lemma ChildIff(entry: TreeEntry, name: Name)
      requires TreeOk() && On(entry, name) && Len(entry.path) < Len(name)
      ensures Prefix(name, Len(entry.path) + 1) in nodes
              <==> exists c :: c in entry.children && At(name, c.depth - 1) == c.component
    {
      var next := Prefix(name, Len(entry.path) + 1);
      NextPrefix(name, Len(entry.path));
      if next in nodes {
        assert Hangs(nodes, next) && InList(nodes, contents, next);
      }
      forall c | c in entry.children && At(name, c.depth - 1) == c.component ensures next in nodes {
        ChildFound(entry, name, c);
        assert c.path == next;
      }
    }

    /** The entry for exactly this name, or null. */
    function FindExactMatch(entry: TreeEntry, name: Name): (r: TreeEntry?)
      requires TreeOk() && On(entry, name)
      reads this, Repr
      ensures r == if name in nodes then nodes[name] else null
      decreases Len(name) - Len(entry.path)
    {
      if Len(name) > entry.depth then
        var i := ChildFor(entry.children, name, 0);
        if i < |entry.children| then
          ChildFound(entry, name, entry.children[i]);
          FindExactMatch(entry.children[i], name)
        else
          ChildIff(entry, name);
          PrefixesOn(root, nodes, name, Len(entry.path) + 1);
          null
      else
        assert entry.path == name;
        entry
    }

    /** The entry of the longest prefix of the name that hangs in the tree. */
    function FindLongestPrefix(entry: TreeEntry, name: Name): (r: TreeEntry)
      requires TreeOk() && On(entry, name)
      reads this, Repr
      ensures On(r, name) && (r.path == name || Prefix(name, Len(r.path) + 1) !in nodes)
      decreases Len(name) - Len(entry.path)
    {
      if Len(name) > entry.depth then
        var i := ChildFor(entry.children, name, 0);
        if i < |entry.children| then
          ChildFound(entry, name, entry.children[i]);
          FindLongestPrefix(entry.children[i], name)
        else
          ChildIff(entry, name);
          entry
      else
        assert entry.path == name;
        entry
    }

    /** Adds the entries that are missing on the way to the name. */
    method FillTreeToPrefix(name: Name) returns (entry: TreeEntry)
      requires Valid()
      modifies Repr
      ensures Valid() && Grown() && view == old(view)
      ensures name in nodes && nodes[name] == entry
    {
      var curNode := FindLongestPrefix(root, name);
      ghost var added;
      entry, added := FillFrom(curNode, name, curNode.depth + 1);
    }

    /** The loop over depths, from the first one that is missing. */
    method FillFrom(curNode: TreeEntry, name: Name, depth: nat) returns (entry: TreeEntry, ghost added: set<TreeEntry>)
      requires Valid() && On(curNode, name) && depth == Len(curNode.path) + 1
      requires curNode.path == name || Prefix(name, depth) !in nodes
      modifies Repr
      ensures Valid() && Repr == old(Repr) + added && fresh(added) && view == old(view)
      ensures name in nodes && nodes[name] == entry
      decreases Len(name) + 1 - depth
    {
      if depth <= Len(name) {
        var newNode := AddNext(curNode, name, depth);
        ghost var more;
        entry, more := FillFrom(newNode, name, depth + 1);
        assert fresh(more) && fresh(newNode);
        added := more + {newNode};
      } else {
        entry, added := curNode, {};
      }
    }

    /** One step of the loop. */
    method AddNext(curNode: TreeEntry, name: Name, depth: nat) returns (newNode: TreeEntry)
      requires Valid() && On(curNode, name) && depth == Len(curNode.path) + 1 <= Len(name)
      requires Prefix(name, depth) !in nodes
      modifies this`nodes, this`contents, this`Repr, curNode`children
      ensures Valid() && Repr == old(Repr) + {newNode} && fresh(newNode) && view == old(view)
      ensures On(newNode, name) && Len(newNode.path) == depth
      ensures newNode.path == name || Prefix(name, depth + 1) !in nodes
    {
      newNode := new TreeEntry.Below(curNode, At(name, depth - 1), depth);
      NextName(root, nodes, curNode, newNode, name, depth);
      AddChild(curNode, newNode);
    }

    method AddChild(curNode: TreeEntry, newNode: TreeEntry)
      requires Valid() && InTree(curNode) && newNode.path !in nodes && newNode !in Repr
      requires newNode.path == Under(curNode.path, newNode.component) && newNode.parent == curNode
      requires newNode.depth == Len(newNode.path)
      requires newNode.children == [] && newNode.nexthops == [] && newNode.strategy == None
      modifies this`nodes, this`contents, this`Repr, curNode`children
      ensures Valid() && Repr == old(Repr) + {newNode} && view == old(view)
      ensures nodes == old(nodes)[newNode.path := newNode]
    {
      NextOk(root, nodes, contents, view, curNode, newNode);
      Link(curNode, newNode);
    }

    method Link(entry: TreeEntry, child: TreeEntry)
      requires this in Repr && Mirrored() && nodes.Keys == contents.Keys
      requires forall p :: p in nodes ==> nodes[p].path == p
      requires entry.path in nodes && nodes[entry.path] == entry && child.path !in nodes
      requires child.children == [] && child.nexthops == [] && child.strategy == None && child !in Repr
      modifies this`nodes, this`contents, this`Repr, entry`children
      ensures Mirrored() && Repr == old(Repr) + {child}
      ensures nodes == old(nodes)[child.path := child]
      ensures contents == WithChild(old(contents), entry.path, child, child.path)
    {
      entry.children := entry.children + [child];
      nodes := nodes[child.path := child];
      contents := WithChild(contents, entry.path, child, child.path);
      Repr := Repr + {child};
    }

    // ---------- pruning ----------

    /** Takes the entry out of the tree if nothing needs it. The loop goes on to emptied ancestors,
        but only ever looks for the entry it started from, so they stay. */
    method PruneIfEmpty(f: TreeEntry)
      requires Valid() && InTree(f)
      modifies this`nodes, this`contents, Repr
      ensures Valid() && Repr == old(Repr) && view == old(view)
      ensures nodes == if old(Prunable(nodes, contents, f.path)) then old(nodes) - {f.path} else old(nodes)
    {
      assert Hangs(nodes, f.path);
      if f.parent != null && |f.children| == 0 && |f.nexthops| == 0 && f.strategy == None {
        RemoveFromParent(f);
        PruneAbove(f.parent, f);
      }
    }

    /** The later iterations: the entry is in no children list any more, so they change nothing. */
    method PruneAbove(start: TreeEntry, f: TreeEntry)
      requires Valid() && InTree(start) && !InTree(f)
    {
      var curNode: TreeEntry := start;
      while curNode.parent != null && |curNode.children| == 0 && |curNode.nexthops| == 0 && curNode.strategy == None
        invariant InTree(curNode)
        decreases Len(curNode.path)
      {
        assert Hangs(nodes, curNode.path);
        var children := curNode.parent.children;
        var i := 0;
        while i < |children|
          invariant i <= |children|
        {
          assert IsChild(nodes, children[i], curNode.parent.path);
          if children[i] == f {
            assert false;
          }
          i := i + 1;
        }
        curNode := curNode.parent;
      }
    }

    /** The first iteration: the children after the entry move down by one. */
    method RemoveFromParent(f: TreeEntry)
      requires Valid() && InTree(f) && Prunable(nodes, contents, f.path)
      modifies this`nodes, this`contents, Repr
      ensures Valid() && Repr == old(Repr) && view == old(view)
      ensures nodes == old(nodes) - {f.path}
    {
      assert Hangs(nodes, f.path) && InList(nodes, contents, f.path);
      var children := f.parent.children;
      var i := 0;
      while children[i] != f
        invariant i < |children|
        invariant f in children[i..]
        decreases |children| - i
      {
        i := i + 1;
      }
      DistinctShift(children, i);
      Unlink(f, children[..i] + children[i + 1..]);
    }

    method Unlink(f: TreeEntry, kids: seq<TreeEntry>)
      requires Valid() && InTree(f) && Prunable(nodes, contents, f.path)
      requires f.parent == nodes[f.path.prefix]
      requires Distinct(kids) && (forall c :: c in kids <==> c in f.parent.children && c != f)
      modifies this`nodes, this`contents, f.parent`children
      ensures Valid() && view == old(view)
      ensures nodes == old(nodes) - {f.path}
    {
      DropPaths(root, nodes, contents, f.path);
      DropChildren(nodes, contents, f.path, kids);
      DropView(nodes, contents, view, f.path, kids);
      UnlinkStore(f, kids);
    }

    method UnlinkStore(f: TreeEntry, kids: seq<TreeEntry>)
      requires Mirrored() && InTree(f) && f.path != Root && f.path.prefix in nodes
      requires forall p :: p in nodes ==> nodes[p].path == p
      requires f.parent == nodes[f.path.prefix]
      modifies this`nodes, this`contents, f.parent`children
      ensures Mirrored()
      ensures nodes == old(nodes) - {f.path}
      ensures contents == WithoutChild(old(contents), f.path, kids)
    {
      f.parent.children := kids;
      nodes := nodes - {f.path};
      contents := WithoutChild(contents, f.path, kids);
    }

    // ---------- the public operations ----------

    /** The nexthops of the longest prefix of the name that has any: up from the longest match. */
    method FindNextHops(name: Name) returns (hops: seq<NextHop>)
      requires Valid()
      ensures Lists(hops, FibSpec.FindNextHops(view, name))
    {
      var curNode: TreeEntry? := FindLongestPrefix(root, name);
      LongestMatchOn(curNode, name, view.hops.Keys);
      while curNode != null
        invariant curNode != null ==> On(curNode, name)
        invariant LongestMatch(view.hops.Keys, name)
                  == if curNode == null then None else LongestMatch(view.hops.Keys, curNode.path)
        decreases if curNode == null then 0 else Len(curNode.path) + 1
      {
        HeldAt(curNode);
        if |curNode.nexthops| > 0 {
          return curNode.nexthops;
        }
        StepUp(curNode, name);
        curNode := curNode.parent;
      }
      hops := [];
    }

    /** The strategy of the longest prefix of the name that has one. */
    method FindStrategy(name: Name) returns (strategy: Option<Name>)
      requires Valid()
      ensures strategy == FibSpec.FindStrategy(view, name)
    {
      var curNode: TreeEntry? := FindLongestPrefix(root, name);
      LongestMatchOn(curNode, name, view.strategies.Keys);
      while curNode != null
        invariant curNode != null ==> On(curNode, name)
        invariant LongestMatch(view.strategies.Keys, name)
                  == if curNode == null then None else LongestMatch(view.strategies.Keys, curNode.path)
        decreases if curNode == null then 0 else Len(curNode.path) + 1
      {
        HeldAt(curNode);
        if curNode.strategy.Some? {
          return curNode.strategy;
        }
        StepUp(curNode, name);
        curNode := curNode.parent;
      }
      strategy := None;
    }

    /** What an entry of the tree holds, against the view. */
    lemma HeldAt(entry: TreeEntry)
      requires Valid() && InTree(entry)
      ensures Lists(entry.nexthops, HopsAt(view, entry.path))
      ensures entry.path in view.hops <==> entry.nexthops != []
      ensures entry.strategy == StrategyAt(view, entry.path)
    {
      assert EntryOk(contents[entry.path], view, entry.path);
      ListsEmpty(entry.nexthops, HopsAt(view, entry.path));
    }

    lemma StepUp(entry: TreeEntry, name: Name)
      requires Valid() && On(entry, name)
      ensures entry.parent == null <==> entry.path == Root
      ensures entry.parent != null ==> On(entry.parent, name) && entry.parent.path == entry.path.prefix
    {
      assert Hangs(nodes, entry.path);
      if entry.path != Root {
        PrefixOfPrefix(name, Len(entry.path), Len(entry.path) - 1);
      }
    }

    /** No name below the longest match is a key, if all keys are in the tree. */
    lemma LongestMatchOn(entry: TreeEntry, name: Name, keys: set<Name>)
      requires Valid() && On(entry, name) && keys <= nodes.Keys
      requires entry.path == name || Prefix(name, Len(entry.path) + 1) !in nodes
      ensures LongestMatch(keys, name) == LongestMatch(keys, entry.path)
      decreases Len(name)
    {
      if entry.path != name {
        var k := Len(entry.path);
        PrefixesOn(root, nodes, name, k + 1);
        assert k < Len(name) && Prefix(name.prefix, k) == Prefix(name, k);
        assert k + 1 < Len(name) ==> Prefix(name.prefix, k + 1) == Prefix(name, k + 1);
        LongestMatchOn(entry, name.prefix, keys);
      }
    }

    /** Replaces the nexthops of an entry. */
    method StoreNextHops(entry: TreeEntry, nexthops: seq<NextHop>, ghost h: HopMap)
      requires Valid() && InTree(entry) && Lists(nexthops, h)
      modifies this`contents, this`view, entry
      ensures Valid() && view == WithHops(old(view), entry.path, h)
    {
      ghost var p := entry.path;
      ghost var c := Content(entry.children, nexthops, entry.strategy);
      Store(entry, nexthops, entry.strategy, WithHops(view, p, h));
      StoreHopsOk(old(contents), old(view), p, c, h, contents, view);
      StoreChildren(nodes, old(contents), p, c, contents);
    }

    /** Replaces the strategy of an entry. */
    method StoreStrategy(entry: TreeEntry, strategy: Option<Name>)
      requires Valid() && InTree(entry)
      modifies this`contents, this`view, entry
      ensures Valid() && view == FibSpec.SetStrategy(old(view), entry.path, strategy)
    {
      ghost var p := entry.path;
      ghost var c := Content(entry.children, entry.nexthops, strategy);
      Store(entry, entry.nexthops, strategy, FibSpec.SetStrategy(view, p, strategy));
      StoreStrategyOk(old(contents), old(view), p, c, contents, view);
      StoreChildren(nodes, old(contents), p, c, contents);
    }

    method Store(entry: TreeEntry, nexthops: seq<NextHop>, strategy: Option<Name>, ghost view': Fib)
      requires this in Repr && Mirrored() && InTree(entry) && entry.path in contents
      requires forall p :: p in nodes ==> nodes[p].path == p
      modifies this`contents, this`view, entry`nexthops, entry`strategy
      ensures Mirrored() && view == view'
      ensures contents == old(contents)[entry.path := Content(entry.children, nexthops, strategy)]
    {
      entry.nexthops := nexthops;
      entry.strategy := strategy;
      contents := contents[entry.path := Content(entry.children, nexthops, strategy)];
      view := view';
    }

    method InsertNextHop(name: Name, nexthop: FaceId, cost: nat)
      requires Valid()
      modifies Repr
      ensures Valid() && Grown()
      ensures view == FibSpec.InsertNextHop(old(view), name, nexthop, cost)
      ensures Did(old(view), view, OpInsert(name, nexthop, cost)) == true
    {
      ghost var was := view;
      assert WellFormed(was);
      var entry := FillTreeToPrefix(name);
      NameEntry(entry, name);
      HeldAt(entry);
      ghost var h := HopsAt(view, name);
      var hops := PutHop(entry.nexthops, nexthop, cost, h);
      StoreNextHops(entry, hops, h[nexthop := cost]);
      DidInsert(was, view, name, nexthop, cost);
    }

    /** An entry that the tree was filled up to gets its name, unless it has one. */
    method NameEntry(entry: TreeEntry, name: Name)
      requires Valid() && InTree(entry)
      modifies entry`name
      ensures Valid()
    {
      if entry.name == None {
        entry.name := Some(name);
      }
    }

    /** Clearing without a name (a nil name in the source) does nothing; entries stay where they are. */
    method ClearNextHops(name: Option<Name>)
      requires Valid()
      modifies Repr
      ensures Valid() && Repr == old(Repr)
      ensures view == if name == None then old(view) else FibSpec.ClearNextHops(old(view), name.value)
      ensures name.Some? ==> Did(old(view), view, OpClear(name.value)) == true
    {
      if name.Some? {
        ApplyMeaning(view, OpClear(name.value));
      }
      if name == None {
        return;
      }
      var node := FindExactMatch(root, name.value);
      if node != null {
        StoreNextHops(node, [], map[]);
      } else {
        assert name.value !in view.hops;
      }
    }

    method RemoveNextHop(name: Name, nexthop: FaceId)
      requires Valid()
      modifies Repr
      ensures Valid() && Repr == old(Repr)
      ensures view == FibSpec.RemoveNextHop(old(view), name, nexthop)
      ensures Did(old(view), view, OpRemove(name, nexthop)) == true
    {
      ApplyMeaning(view, OpRemove(name, nexthop));
      var entry := FindExactMatch(root, name);
      if entry == null {
        assert name !in view.hops;
        return;
      }
      DropFace(entry, nexthop);
      PruneIfEmpty(entry);
    }

    method DropFace(entry: TreeEntry, nexthop: FaceId)
      requires Valid() && InTree(entry)
      modifies this`contents, this`view, entry
      ensures Valid() && view == FibSpec.RemoveNextHop(old(view), entry.path, nexthop)
    {
      HeldAt(entry);
      ghost var h := HopsAt(view, entry.path);
      var hops := ShiftDelete(entry.nexthops, nexthop, h);
      StoreNextHops(entry, hops, h - {nexthop});
    }

    /** The loop of RemoveNextHop: the nexthops after the one for the face move down by one. */
    static method ShiftDelete(hops: seq<NextHop>, face: FaceId, ghost h: HopMap) returns (hops': seq<NextHop>)
      requires Lists(hops, h)
      ensures Lists(hops', h - {face})
    {
      var i := FaceIndex(hops, face);
      if i < |hops| {
        ListsShift(hops, h, i);
        hops' := hops[..i] + hops[i + 1..];
      } else {
        ListsAbsent(hops, h, face);
        hops' := hops;
      }
    }

    method SetStrategy(name: Name, strategy: Option<Name>)
      requires Valid()
      modifies Repr
      ensures Valid() && Grown()
      ensures view == FibSpec.SetStrategy(old(view), name, strategy)
      ensures Did(old(view), view, OpSet(name, strategy)) == true
    {
      ghost var was := view;
      assert WellFormed(was);
      var entry := FillTreeToPrefix(name);
      NameEntry(entry, name);
      StoreStrategy(entry, strategy);
      DidSet(was, view, name, strategy);
    }

    method UnSetStrategy(name: Name)
      requires Valid()
      modifies Repr
      ensures Valid() && Repr == old(Repr)
      ensures view == FibSpec.SetStrategy(old(view), name, None)
      ensures Did(old(view), view, OpUnset(name)) == true
    {
      ghost var was := view;
      assert WellFormed(was);
      var entry := FindExactMatch(root, name);
      if entry != null {
        StoreStrategy(entry, None);
        PruneIfEmpty(entry);
      } else {
        assert name !in view.strategies;
      }
      DidSet(was, view, name, None);
    }
  }
}
