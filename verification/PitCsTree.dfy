/** The combined Pending Interest Table and Content Store: a mutable name tree whose nodes hold
    pending Interests and cached Data, with a token map, an index map, counters, and a
    replacement policy that have to describe the same entries.

    Predicates that are written as equations with `true` are not taken apart where they are promised
    or asked for: an operation that changes nothing of one carries it over as a whole. */
module PitCs {
  import opened Names
  import opened CsLru

  type FaceId = nat
  type Token = t: int | 0 <= t < 0x1_0000_0000
  type Nonce = n: int | 0 <= n < 0x1_0000_0000

  /** What tells pending Interests apart. No forwarding hint is the empty one. */
  datatype PitKey = PitKey(name: Name, canBePrefix: bool, mustBeFresh: bool, hint: Name)

  datatype InRecord = InRecord(nonce: Nonce)

  /** A Data packet; without a freshness period it is stale at once. */
  datatype Data = Data(name: Name, freshness: Option<nat>, wire: seq<Byte>)

  datatype Cached = Cached(data: Data, staleTime: int)

  class PitCsTreeNode {
    const component: Component
    const depth: nat
    const parent: PitCsTreeNode?
    /** The name that the components on the way from the root spell. */
    ghost const path: Name

    var children: map<Hash, PitCsTreeNode>
    var pitEntries: seq<PitEntry>
    var csEntry: CsEntry?

    constructor AtRoot()
      ensures path == Root && depth == 0 && parent == null
      ensures children == map[] && pitEntries == [] && csEntry == null
    {
      component, depth, parent, path := Component(0, []), 0, null, Root;
      children, pitEntries, csEntry := map[], [], null;
    }

    constructor Below(parent: PitCsTreeNode, component: Component, depth: nat)
      ensures this.path == Under(parent.path, component) && this.component == component
      ensures this.depth == depth && this.parent == parent
      ensures children == map[] && pitEntries == [] && csEntry == null
    {
      this.component, this.depth, this.parent := component, depth, parent;
      this.path := Under(parent.path, component);
      children, pitEntries, csEntry := map[], [], null;
    }
  }

  class PitEntry {
    const key: PitKey
    const token: Token
    const node: PitCsTreeNode
    var inRecords: map<FaceId, InRecord>
    var expirationTime: int

    constructor (key: PitKey, token: Token, node: PitCsTreeNode)
      ensures this.key == key && this.token == token && this.node == node && inRecords == map[]
    {
      this.key, this.token, this.node := key, token, node;
      inRecords, expirationTime := map[], 0;
    }
  }

  class CsEntry {
    const node: PitCsTreeNode
    const index: Hash
    var encData: Data
    var staleTime: int

    constructor (node: PitCsTreeNode, index: Hash, encData: Data, staleTime: int)
      ensures this.node == node && this.index == index && this.encData == encData && this.staleTime == staleTime
    {
      this.node, this.index, this.encData, this.staleTime := node, index, encData, staleTime;
    }
  }

  // ---------- the shape of the tree, as values ----------

  /** The nodes in the tree, by the name each stands for, and what each holds. */
  type Nodes = map<Name, PitCsTreeNode>

  datatype Content = Content(children: map<Hash, PitCsTreeNode>, pitEntries: seq<PitEntry>, csEntry: CsEntry?)

  const EMPTY: Content := Content(map[], [], null)

  type Contents = map<Name, Content>

  /** The key of a component in the children map of a node. */
  function Slot(hash: Component -> Hash, c: Component): Hash {
    hash(c)
  }

  /** The components in use have different hashes. */
  ghost predicate Injective(hash: Component -> Hash, components: iset<Component>) {
    forall a: Component, b: Component :: a in components && b in components && Slot(hash, a) == Slot(hash, b) ==> a == b
  }

  ghost predicate Spelled(components: iset<Component>, name: Name) {
    name != Root ==> name.last in components && Spelled(components, name.prefix)
  }

  lemma {:induction false} SpelledAt(components: iset<Component>, name: Name, k: nat)
    requires Spelled(components, name) && k < Len(name)
    ensures At(name, k) in components
  {
    if k < Len(name) - 1 {
      SpelledAt(components, name.prefix, k);
    }
  }

  /** The node at p knows its name, depth and component, and hangs below the node at p.prefix. */
  ghost predicate Hangs(nodes: Nodes, components: iset<Component>, p: Name)
  {
    p in nodes ==>
      && nodes[p].path == p && nodes[p].depth == Len(p)
      && (p != Root ==> p.prefix in nodes && nodes[p].parent == nodes[p.prefix]
                        && nodes[p].component == p.last && p.last in components)
  }

  /** `child` is a node of the tree, right below the name, under its hash. */
  ghost predicate IsChild(nodes: Nodes, child: PitCsTreeNode, p: Name, hash: Component -> Hash, h: Hash)
  {
    && child.path in nodes && nodes[child.path] == child
    && child.path != Root && child.path.prefix == p && Slot(hash, child.path.last) == h
  }

  ghost predicate KidOk(nodes: Nodes, contents: Contents, hash: Component -> Hash, p: Name, h: Hash)
  {
    p in contents && h in contents[p].children ==> IsChild(nodes, contents[p].children[h], p, hash, h)
  }

  /** The node at p is among the children of the node at p.prefix. */
  ghost predicate Reached(nodes: Nodes, contents: Contents, hash: Component -> Hash, p: Name)
  {
    p in nodes && p != Root && p.prefix in contents ==>
      var h := Slot(hash, p.last);
      h in contents[p.prefix].children && contents[p.prefix].children[h] == nodes[p]
  }

  /** The tree hangs together from its root, and the children maps hold exactly its nodes. */
  ghost predicate Shape(root: PitCsTreeNode, nodes: Nodes, contents: Contents, hash: Component -> Hash,
                        components: iset<Component>)
  {
    && Root in nodes && nodes[Root] == root && root.path == Root && root.parent == null && contents.Keys == nodes.Keys
    && Injective(hash, components)
    && (forall p {:trigger Hangs(nodes, components, p)} :: Hangs(nodes, components, p))
    && (forall p, h {:trigger KidOk(nodes, contents, hash, p, h)} :: KidOk(nodes, contents, hash, p, h))
    && (forall p {:trigger Reached(nodes, contents, hash, p)} :: Reached(nodes, contents, hash, p))
  }

  lemma {:induction false} PrefixesOn(root: PitCsTreeNode, nodes: Nodes, contents: Contents, hash: Component -> Hash,
                                      components: iset<Component>, p: Name, k: nat)
    requires Shape(root, nodes, contents, hash, components) && k <= Len(p)
    ensures p in nodes ==> Prefix(p, k) in nodes
    decreases Len(p)
  {
    if k < Len(p) {
      assert Hangs(nodes, components, p);
      PrefixesOn(root, nodes, contents, hash, components, p.prefix, k);
    }
  }

  /** Changing other things than children keeps the shape. */
  lemma SameKids(root: PitCsTreeNode, nodes: Nodes, contents: Contents, hash: Component -> Hash,
                 components: iset<Component>,
                 contents': Contents)
    requires Shape(root, nodes, contents, hash, components) && contents'.Keys == contents.Keys
    requires forall p :: p in contents ==> contents'[p].children == contents[p].children
    ensures Shape(root, nodes, contents', hash, components)
  {
    forall p, h ensures KidOk(nodes, contents', hash, p, h) {
      assert KidOk(nodes, contents, hash, p, h);
    }
    forall p ensures Reached(nodes, contents', hash, p) {
      assert Reached(nodes, contents, hash, p);
    }
  }

  // ---------- hanging a node ----------

  function WithKid(contents: Contents, q: Name, h: Hash, child: PitCsTreeNode, path: Name): Contents
    requires q in contents
  {
    contents[path := EMPTY][q := contents[q].(children := contents[q].children[h := child])]
  }

  ghost predicate NewBelow(nodes: Nodes, parent: PitCsTreeNode, child: PitCsTreeNode)
  {
    && parent.path in nodes && nodes[parent.path] == parent && child.path !in nodes
    && child.path == Under(parent.path, child.component) && child.parent == parent && child.depth == Len(child.path)
  }

  lemma AddShape(root: PitCsTreeNode, nodes: Nodes, contents: Contents, hash: Component -> Hash,
                 components: iset<Component>,
                 parent: PitCsTreeNode, child: PitCsTreeNode)
    requires Shape(root, nodes, contents, hash, components) && NewBelow(nodes, parent, child)
             && child.component in components
    ensures Shape(root, nodes[child.path := child],
                  WithKid(contents, parent.path, Slot(hash, child.component), child, child.path), hash, components)
  {
    var slot := Slot(hash, child.component);
    var nodes', contents' := nodes[child.path := child], WithKid(contents, parent.path, slot, child, child.path);
    FreeSlot(root, nodes, contents, hash, components, parent.path, child.component);
    forall p ensures Hangs(nodes', components, p) {
      assert Hangs(nodes, components, p);
    }
    forall p, h ensures KidOk(nodes', contents', hash, p, h) {
      assert KidOk(nodes, contents, hash, p, h);
    }
    forall p ensures Reached(nodes', contents', hash, p) {
      assert Reached(nodes, contents, hash, p) && Hangs(nodes, components, p);
    }
  }

  /** The hash of a component that is new below a node is not taken there. */
  lemma FreeSlot(root: PitCsTreeNode, nodes: Nodes, contents: Contents, hash: Component -> Hash,
                 components: iset<Component>,
                 p: Name, c: Component)
    requires Shape(root, nodes, contents, hash, components) && p in nodes && c in components && Under(p, c) !in nodes
    ensures Slot(hash, c) !in contents[p].children
  {
    var h := Slot(hash, c);
    assert KidOk(nodes, contents, hash, p, h);
    assert h in contents[p].children ==> Hangs(nodes, components, contents[p].children[h].path);
  }

  /** The tree goes on below a node with a component just when the hash of that is taken there. */
  lemma ChildIff(root: PitCsTreeNode, nodes: Nodes, contents: Contents, hash: Component -> Hash,
                 components: iset<Component>,
                 p: Name, c: Component)
    requires Shape(root, nodes, contents, hash, components) && p in nodes && c in components
    ensures var h := Slot(hash, c);
            && (h in contents[p].children <==> Under(p, c) in nodes)
            && (h in contents[p].children ==>
                  contents[p].children[h] == nodes[Under(p, c)] && contents[p].children[h].path == Under(p, c))
  {
    var next := Under(p, c);
    if next in nodes {
      assert Reached(nodes, contents, hash, next) && Hangs(nodes, components, next);
    } else {
      FreeSlot(root, nodes, contents, hash, components, p, c);
    }
  }

  /** The step from one prefix of a name to the next. */
  lemma NextName(root: PitCsTreeNode, nodes: Nodes, contents: Contents, hash: Component -> Hash,
                 components: iset<Component>,
                 parent: PitCsTreeNode, child: PitCsTreeNode, name: Name, d: nat)
    requires Shape(root, nodes, contents, hash, components) && IsPrefix(parent.path, name)
    requires d == Len(parent.path) + 1 <= Len(name) && Prefix(name, d) !in nodes
    requires child.path == Under(parent.path, child.component) && child.component == At(name, d - 1)
    ensures child.path == Prefix(name, d) && child.path !in nodes
    ensures child.path == name || Prefix(name, d + 1) !in nodes[child.path := child]
  {
    NextPrefix(name, d - 1);
    if d < Len(name) {
      NextPrefix(name, d);
      assert Hangs(nodes, components, Prefix(name, d + 1));
    }
  }

  // ---------- unhanging a node ----------

  function WithoutKid(contents: Contents, q: Name, h: Hash): Contents
    requires q != Root && q.prefix in contents
  {
    contents[q.prefix := contents[q.prefix].(children := contents[q.prefix].children - {h})] - {q}
  }

  lemma DropShape(root: PitCsTreeNode, nodes: Nodes, contents: Contents, hash: Component -> Hash,
                  components: iset<Component>, q: Name)
    requires Shape(root, nodes, contents, hash, components)
    requires q in nodes && q != Root && q.prefix in nodes && contents[q].children == map[]
    ensures Shape(root, nodes - {q}, WithoutKid(contents, q, Slot(hash, q.last)), hash, components)
  {
    var nodes', contents' := nodes - {q}, WithoutKid(contents, q, Slot(hash, q.last));
    forall p ensures Hangs(nodes', components, p) {
      assert Hangs(nodes, components, p) && Reached(nodes, contents, hash, p);
    }
    forall p, h ensures KidOk(nodes', contents', hash, p, h) {
      assert KidOk(nodes, contents, hash, p, h);
    }
    forall p ensures Reached(nodes', contents', hash, p) {
      assert Reached(nodes, contents, hash, p) && Hangs(nodes, components, p) && Hangs(nodes, components, q);
    }
  }

  /** The node holds a child, a pending entry or Data. */
  ghost predicate HoldsSome(c: Content) {
    c.children != map[] || c.pitEntries != [] || c.csEntry != null
  }

  /** The name is on the way from p up to `top`, but not `top`. */
  ghost predicate OnWayUp(q: Name, p: Name, top: Name) {
    IsPrefix(q, p) && Len(top) < Len(q)
  }

  /** At q the tree after pruning from p up to `top` is right: on the way nothing is left, and nothing was
      there but the way itself; elsewhere everything is as before, but for the child of `top`. */
  ghost predicate PrunedAt(contents: Contents, contents': Contents, p: Name, top: Name, q: Name) {
    && (q in contents' <==> q in contents && !OnWayUp(q, p, top))
    && (q in contents && OnWayUp(q, p, top) ==>
          contents[q].pitEntries == [] && contents[q].csEntry == null && |contents[q].children| <= 1 &&
          (q == p ==> contents[q].children == map[]))
    && (q in contents' && q in contents ==>
          && contents'[q].pitEntries == contents[q].pitEntries && contents'[q].csEntry == contents[q].csEntry
          && contents'[q].children.Keys <= contents[q].children.Keys
          && (q != top ==> contents'[q] == contents[q])
          && (q == top == p ==> contents'[q] == contents[q]))
  }

  /** Pruning has stopped at `top`, which is the root or holds something. */
  ghost predicate PrunedTo(nodes: Nodes, contents: Contents, nodes': Nodes, contents': Contents, p: Name, top: Name) {
    && IsPrefix(top, p) && top in contents' && (top == Root || HoldsSome(contents'[top]))
    && nodes'.Keys == contents'.Keys
    && (forall q {:trigger nodes'[q]} :: q in nodes' ==> q in nodes && nodes'[q] == nodes[q])
    && (forall q {:trigger PrunedAt(contents, contents', p, top, q)} :: PrunedAt(contents, contents', p, top, q))
  }

  lemma PrunedNone(nodes: Nodes, contents: Contents, p: Name)
    requires nodes.Keys == contents.Keys && p in contents && (p == Root || HoldsSome(contents[p]))
    ensures PrunedTo(nodes, contents, nodes, contents, p, p)
  {
    assert Prefix(p, Len(p)) == p;
    forall q ensures PrunedAt(contents, contents, p, p, q) {}
  }

  lemma PrunedMore(nodes: Nodes, contents: Contents, nodes': Nodes, contents': Contents, p: Name, h: Hash, top: Name)
    requires p in contents && p != Root && p.prefix in contents && !HoldsSome(contents[p])
             && nodes.Keys == contents.Keys
    requires PrunedTo(nodes - {p}, WithoutKid(contents, p, h), nodes', contents', p.prefix, top)
    ensures PrunedTo(nodes, contents, nodes', contents', p, top)
  {
    var between := WithoutKid(contents, p, h);
    assert Prefix(p, Len(p)) == p;
    PrefixStep(top, p);
    forall q ensures PrunedAt(contents, contents', p, top, q) {
      assert PrunedAt(between, contents', p.prefix, top, q);
      if IsPrefix(q, p) && q != p {
        StepBack(q, p);
      }
      if IsPrefix(q, p.prefix) {
        PrefixStep(q, p);
      }
    }
  }

  lemma StepBack(q: Name, p: Name)
    requires p != Root && IsPrefix(q, p) && q != p
    ensures IsPrefix(q, p.prefix)
  {
  }

  // ---------- pending Interests, as values ----------

  /** The pending entries, by what tells them apart. */
  type Pit = map<PitKey, PitEntry>

  /** An entry in the list of the node at p is pending, and has the node's name. */
  ghost predicate LiveAt(nodes: Nodes, pit: Pit, p: Name, e: PitEntry)
  {
    e.key.name == p && e.key in pit && pit[e.key] == e && p in nodes && e.node == nodes[p]
  }

  ghost predicate NoDup(s: seq<PitEntry>) {
    forall i, j :: 0 <= i < j < |s| ==> s[i] != s[j]
  }

  ghost predicate ListOk(nodes: Nodes, contents: Contents, pit: Pit, p: Name)
  {
    p in contents ==>
      NoDup(contents[p].pitEntries) && forall e :: e in contents[p].pitEntries ==> LiveAt(nodes, pit, p, e)
  }

  /** A pending entry is in the list of its node. */
  ghost predicate Listed(contents: Contents, pit: Pit, k: PitKey)
  {
    k in pit ==> pit[k].key == k && k.name in contents && pit[k] in contents[k.name].pitEntries
  }

  /** The lists of the nodes hold exactly the pending entries, each once, at its name. */
  ghost predicate PitOk(nodes: Nodes, contents: Contents, pit: Pit)
  {
    && (forall p {:trigger ListOk(nodes, contents, pit, p)} :: ListOk(nodes, contents, pit, p))
    && (forall k {:trigger Listed(contents, pit, k)} :: Listed(contents, pit, k))
  }

  /** A token is that of the pending entry it leads to. */
  ghost predicate TokenLeads(pit: Pit, tokens: map<Token, PitEntry>, t: Token)
  {
    t in tokens ==> tokens[t].token == t && tokens[t].key in pit && pit[tokens[t].key] == tokens[t]
  }

  /** The token of a pending entry leads to it. */
  ghost predicate TokenHas(pit: Pit, tokens: map<Token, PitEntry>, k: PitKey)
  {
    k in pit ==> pit[k].key == k && pit[k].token in tokens && tokens[pit[k].token] == pit[k]
  }

  /** The token map holds exactly the pending entries. */
  ghost predicate TokensOk(pit: Pit, tokens: map<Token, PitEntry>)
  {
    && (forall t {:trigger TokenLeads(pit, tokens, t)} :: TokenLeads(pit, tokens, t))
    && (forall k {:trigger TokenHas(pit, tokens, k)} :: TokenHas(pit, tokens, k))
    && |tokens| == |pit|
  }

  /** Nodes that come or go without pending entries, and other changes than to lists, do no harm. */
  lemma SamePits(nodes: Nodes, contents: Contents, pit: Pit, nodes': Nodes, contents': Contents)
    requires PitOk(nodes, contents, pit)
    requires forall p :: p in nodes && p in contents && contents[p].pitEntries != [] ==>
               p in nodes' && nodes'[p] == nodes[p]
    requires forall p :: p in contents && contents[p].pitEntries != [] ==> p in contents'
    requires forall p :: p in contents' ==>
      contents'[p].pitEntries == if p in contents then contents[p].pitEntries else []
    ensures PitOk(nodes', contents', pit)
  {
    forall p ensures ListOk(nodes', contents', pit, p) {
      assert ListOk(nodes, contents, pit, p);
    }
    forall k ensures Listed(contents', pit, k) {
      assert Listed(contents, pit, k);
    }
  }

  function WithEntries(contents: Contents, p: Name, entries: seq<PitEntry>): Contents
    requires p in contents
  {
    contents[p := contents[p].(pitEntries := entries)]
  }

  lemma AddEntry(nodes: Nodes, contents: Contents, pit: Pit, e: PitEntry)
    requires PitOk(nodes, contents, pit) && e.key !in pit
    requires e.key.name in contents && e.key.name in nodes && e.node == nodes[e.key.name]
    ensures PitOk(nodes, WithEntries(contents, e.key.name, contents[e.key.name].pitEntries + [e]), pit[e.key := e])
  {
    var contents', pit' := WithEntries(contents, e.key.name, contents[e.key.name].pitEntries + [e]), pit[e.key := e];
    var entries := contents[e.key.name].pitEntries;
    assert ListOk(nodes, contents, pit, e.key.name) && (e in entries ==> LiveAt(nodes, pit, e.key.name, e));
    forall p ensures ListOk(nodes, contents', pit', p) {
      assert ListOk(nodes, contents, pit, p);
      forall d | p in contents' && d in contents'[p].pitEntries ensures LiveAt(nodes, pit', p, d) {
        assert d == e || LiveAt(nodes, pit, p, d);
      }
    }
    forall k ensures Listed(contents', pit', k) {
      assert Listed(contents, pit, k);
    }
  }

  lemma AddToken(pit: Pit, tokens: map<Token, PitEntry>, e: PitEntry)
    requires TokensOk(pit, tokens) && e.key !in pit && e.token !in tokens
    ensures TokensOk(pit[e.key := e], tokens[e.token := e])
  {
    var pit', tokens' := pit[e.key := e], tokens[e.token := e];
    forall t ensures TokenLeads(pit', tokens', t) {
      assert TokenLeads(pit, tokens, t);
    }
    forall k ensures TokenHas(pit', tokens', k) {
      assert TokenHas(pit, tokens, k);
    }
  }

  /** The element goes and the last one takes its place. */
  function SwapDelete<T>(s: seq<T>, i: nat): seq<T>
    requires i < |s|
  {
    s[i := s[|s| - 1]][..|s| - 1]
  }

  lemma SwapDeleteMeaning(s: seq<PitEntry>, i: nat)
    requires NoDup(s) && i < |s|
    ensures NoDup(SwapDelete(s, i)) && (forall e :: e in SwapDelete(s, i) <==> e in s && e != s[i])
  {
    var t := SwapDelete(s, i);
    forall e | e in s && e != s[i] ensures e in t {
      var j :| 0 <= j < |s| && s[j] == e;
      assert t[if j == |s| - 1 then i else j] == e;
    }
    forall e | e in t ensures e in s && e != s[i] {
      var j :| 0 <= j < |t| && t[j] == e;
      assert e == s[if j == i then |s| - 1 else j];
    }
  }

  lemma RemoveEntry(nodes: Nodes, contents: Contents, pit: Pit, p: Name, i: nat)
    requires PitOk(nodes, contents, pit) && p in contents && i < |contents[p].pitEntries|
    ensures var e := contents[p].pitEntries[i];
            && e.key in pit && pit[e.key] == e && e.key.name == p
            && PitOk(nodes, WithEntries(contents, p, SwapDelete(contents[p].pitEntries, i)), pit - {e.key})
  {
    var e := contents[p].pitEntries[i];
    var contents', pit' := WithEntries(contents, p, SwapDelete(contents[p].pitEntries, i)), pit - {e.key};
    assert ListOk(nodes, contents, pit, p) && LiveAt(nodes, pit, p, e);
    SwapDeleteMeaning(contents[p].pitEntries, i);
    forall q ensures ListOk(nodes, contents', pit', q) {
      assert ListOk(nodes, contents, pit, q);
    }
    forall k ensures Listed(contents', pit', k) {
      assert Listed(contents, pit, k);
    }
  }

  lemma RemoveToken(pit: Pit, tokens: map<Token, PitEntry>, e: PitEntry)
    requires TokensOk(pit, tokens) && e.key in pit && pit[e.key] == e
    ensures e.token in tokens && TokensOk(pit - {e.key}, tokens - {e.token})
  {
    var pit', tokens' := pit - {e.key}, tokens - {e.token};
    assert TokenHas(pit, tokens, e.key);
    forall t ensures TokenLeads(pit', tokens', t) {
      assert TokenLeads(pit, tokens, t);
    }
    forall k ensures TokenHas(pit', tokens', k) {
      assert TokenHas(pit, tokens, k);
    }
  }

  // ---------- cached Data, as values ----------

  /** The key of a name in the index map. */
  function IndexOf(nameHash: Name -> Hash, name: Name): Hash {
    nameHash(name)
  }

  /** The entry of the node at p is the one that the index map has for its name. */
  ghost predicate CachedAt(nodes: Nodes, contents: Contents, csMap: map<Hash, CsEntry>, nameHash: Name -> Hash, p: Name)
  {
    p in contents && contents[p].csEntry != null ==>
      var e := contents[p].csEntry;
      && p in nodes && e.node == nodes[p] && e.node.path == p && e.index == IndexOf(nameHash, p)
      && e.index in csMap && csMap[e.index] == e
  }

  /** An entry of the index map is at its node. */
  ghost predicate Indexed(contents: Contents, csMap: map<Hash, CsEntry>, h: Hash)
  {
    h in csMap ==>
      var e := csMap[h];
      e.index == h && e.node.path in contents && contents[e.node.path].csEntry == e
  }

  /** The nodes and the index map hold the same entries. */
  ghost predicate CsOk(nodes: Nodes, contents: Contents, csMap: map<Hash, CsEntry>, nameHash: Name -> Hash)
  {
    && (forall p {:trigger CachedAt(nodes, contents, csMap, nameHash, p)} ::
        CachedAt(nodes, contents, csMap, nameHash, p))
    && (forall h {:trigger Indexed(contents, csMap, h)} :: Indexed(contents, csMap, h))
  }

  /** Nodes that come or go without cached Data, and other changes than to cached Data, do no harm. */
  lemma SameCs(nodes: Nodes, contents: Contents, csMap: map<Hash, CsEntry>, nameHash: Name -> Hash,
               nodes': Nodes, contents': Contents)
    requires CsOk(nodes, contents, csMap, nameHash)
    requires forall p :: p in nodes && p in contents && contents[p].csEntry != null ==>
               p in nodes' && nodes'[p] == nodes[p]
    requires forall p :: p in contents && contents[p].csEntry != null ==> p in contents'
    requires forall p :: p in contents' ==> contents'[p].csEntry == if p in contents then contents[p].csEntry else null
    ensures CsOk(nodes', contents', csMap, nameHash)
  {
    forall p ensures CachedAt(nodes', contents', csMap, nameHash, p) {
      assert CachedAt(nodes, contents, csMap, nameHash, p);
    }
    forall h ensures Indexed(contents', csMap, h) {
      assert Indexed(contents, csMap, h);
    }
  }

  function WithCs(contents: Contents, p: Name, e: CsEntry?): Contents
    requires p in contents
  {
    contents[p := contents[p].(csEntry := e)]
  }

  lemma AddCached(nodes: Nodes, contents: Contents, csMap: map<Hash, CsEntry>, nameHash: Name -> Hash, p: Name,
                  e: CsEntry)
    requires CsOk(nodes, contents, csMap, nameHash) && e.index == IndexOf(nameHash, p) && e.index !in csMap
    requires p in contents && p in nodes && e.node == nodes[p] && e.node.path == p
    ensures CsOk(nodes, WithCs(contents, p, e), csMap[e.index := e], nameHash)
  {
    var contents', csMap' := WithCs(contents, p, e), csMap[e.index := e];
    assert CachedAt(nodes, contents, csMap, nameHash, p);
    forall q ensures CachedAt(nodes, contents', csMap', nameHash, q) {
      assert CachedAt(nodes, contents, csMap, nameHash, q);
    }
    forall h ensures Indexed(contents', csMap', h) {
      assert Indexed(contents, csMap, h);
    }
  }

  lemma EraseCached(nodes: Nodes, contents: Contents, csMap: map<Hash, CsEntry>, nameHash: Name -> Hash, h: Hash)
    requires CsOk(nodes, contents, csMap, nameHash) && h in csMap
    ensures var q := csMap[h].node.path;
            && q in contents && contents[q].csEntry == csMap[h] && q in nodes && nodes[q] == csMap[h].node
            && IndexOf(nameHash, q) == h
            && CsOk(nodes, WithCs(contents, q, null), csMap - {h}, nameHash)
  {
    assert Indexed(contents, csMap, h);
    var q := csMap[h].node.path;
    assert CachedAt(nodes, contents, csMap, nameHash, q);
    var contents', csMap' := WithCs(contents, q, null), csMap - {h};
    forall p ensures CachedAt(nodes, contents', csMap', nameHash, p) {
      assert CachedAt(nodes, contents, csMap, nameHash, p);
    }
    forall g ensures Indexed(contents', csMap', g) {
      assert Indexed(contents, csMap, g);
    }
  }

  // ---------- the whole tree, as values ----------

  ghost predicate Sound(root: PitCsTreeNode, nodes: Nodes, contents: Contents, hash: Component -> Hash,
                        components: iset<Component>, pit: Pit, csMap: map<Hash, CsEntry>, nameHash: Name -> Hash)
  {
    (Shape(root, nodes, contents, hash, components) && PitOk(nodes, contents, pit)
     && CsOk(nodes, contents, csMap, nameHash)) == true
  }

  lemma AloneOk(root: PitCsTreeNode, hash: Component -> Hash, components: iset<Component>, nameHash: Name -> Hash)
    requires root.path == Root && root.depth == 0 && root.parent == null && Injective(hash, components)
    ensures Sound(root, map[Root := root], map[Root := EMPTY], hash, components, map[], map[], nameHash)
  {
  }

  lemma AddOk(root: PitCsTreeNode, nodes: Nodes, contents: Contents, hash: Component -> Hash,
              components: iset<Component>,
              pit: Pit, csMap: map<Hash, CsEntry>, nameHash: Name -> Hash,
              parent: PitCsTreeNode, child: PitCsTreeNode, nodes': Nodes, contents': Contents)
    requires Sound(root, nodes, contents, hash, components, pit, csMap, nameHash)
    requires NewBelow(nodes, parent, child) && child.component in components && nodes' == nodes[child.path := child]
    requires contents' == WithKid(contents, parent.path, Slot(hash, child.component), child, child.path)
    ensures Sound(root, nodes', contents', hash, components, pit, csMap, nameHash)
  {
    AddShape(root, nodes, contents, hash, components, parent, child);
    SamePits(nodes, contents, pit, nodes', contents');
    SameCs(nodes, contents, csMap, nameHash, nodes', contents');
  }

  lemma DropOk(root: PitCsTreeNode, nodes: Nodes, contents: Contents, hash: Component -> Hash,
               components: iset<Component>,
               pit: Pit, csMap: map<Hash, CsEntry>, nameHash: Name -> Hash, q: Name, nodes': Nodes, contents': Contents)
    requires Sound(root, nodes, contents, hash, components, pit, csMap, nameHash)
    requires q in nodes && q != Root && q.prefix in nodes && contents[q] == EMPTY
    requires nodes' == nodes - {q} && contents' == WithoutKid(contents, q, Slot(hash, q.last))
    ensures Sound(root, nodes', contents', hash, components, pit, csMap, nameHash)
  {
    DropShape(root, nodes, contents, hash, components, q);
    SamePits(nodes, contents, pit, nodes', contents');
    SameCs(nodes, contents, csMap, nameHash, nodes', contents');
  }

  lemma InsertOk(root: PitCsTreeNode, nodes: Nodes, contents: Contents, hash: Component -> Hash,
                 components: iset<Component>,
                 pit: Pit, csMap: map<Hash, CsEntry>, nameHash: Name -> Hash, e: PitEntry, contents': Contents,
                 pit': Pit)
    requires Sound(root, nodes, contents, hash, components, pit, csMap, nameHash)
    requires e.key !in pit && e.key.name in nodes && e.node == nodes[e.key.name] && pit' == pit[e.key := e]
    requires contents' == WithEntries(contents, e.key.name, contents[e.key.name].pitEntries + [e])
    ensures Sound(root, nodes, contents', hash, components, pit', csMap, nameHash)
  {
    AddEntry(nodes, contents, pit, e);
    SameKids(root, nodes, contents, hash, components, contents');
    SameCs(nodes, contents, csMap, nameHash, nodes, contents');
  }

  lemma RemoveOk(root: PitCsTreeNode, nodes: Nodes, contents: Contents, hash: Component -> Hash,
                 components: iset<Component>,
                 pit: Pit, csMap: map<Hash, CsEntry>, nameHash: Name -> Hash, p: Name, i: nat, contents': Contents,
                 pit': Pit)
    requires Sound(root, nodes, contents, hash, components, pit, csMap, nameHash)
    requires p in nodes && i < |contents[p].pitEntries| && pit' == pit - {contents[p].pitEntries[i].key}
    requires contents' == WithEntries(contents, p, SwapDelete(contents[p].pitEntries, i))
    ensures Sound(root, nodes, contents', hash, components, pit', csMap, nameHash)
    ensures var e := contents[p].pitEntries[i]; e.key in pit && pit[e.key] == e
  {
    RemoveEntry(nodes, contents, pit, p, i);
    SameKids(root, nodes, contents, hash, components, contents');
    SameCs(nodes, contents, csMap, nameHash, nodes, contents');
  }

  lemma CacheOk(root: PitCsTreeNode, nodes: Nodes, contents: Contents, hash: Component -> Hash,
                components: iset<Component>,
                pit: Pit, csMap: map<Hash, CsEntry>, nameHash: Name -> Hash, p: Name, e: CsEntry,
                contents': Contents, csMap': map<Hash, CsEntry>)
    requires Sound(root, nodes, contents, hash, components, pit, csMap, nameHash)
    requires p in nodes && e.node == nodes[p] && e.index == IndexOf(nameHash, p) && e.index !in csMap
    requires contents' == WithCs(contents, p, e) && csMap' == csMap[e.index := e]
    ensures Sound(root, nodes, contents', hash, components, pit, csMap', nameHash)
  {
    assert Hangs(nodes, components, p);
    AddCached(nodes, contents, csMap, nameHash, p, e);
    SameKids(root, nodes, contents, hash, components, contents');
    SamePits(nodes, contents, pit, nodes, contents');
  }

  lemma EraseOk(root: PitCsTreeNode, nodes: Nodes, contents: Contents, hash: Component -> Hash,
                components: iset<Component>,
                pit: Pit, csMap: map<Hash, CsEntry>, nameHash: Name -> Hash, h: Hash,
                contents': Contents, csMap': map<Hash, CsEntry>)
    requires Sound(root, nodes, contents, hash, components, pit, csMap, nameHash) && h in csMap
    requires csMap[h].node.path in contents && contents' == WithCs(contents, csMap[h].node.path, null)
             && csMap' == csMap - {h}
    ensures Sound(root, nodes, contents', hash, components, pit, csMap', nameHash)
  {
    EraseCached(nodes, contents, csMap, nameHash, h);
    SameKids(root, nodes, contents, hash, components, contents');
    SamePits(nodes, contents, pit, nodes, contents');
  }

  // ---------- the table ----------

  class PitCsTree {
    const root: PitCsTreeNode
    const hash: Component -> Hash
    const nameHash: Name -> Hash
    /** The components and the names of Data that the table ever meets: hashes tell them apart. */
    ghost const components: iset<Component>
    ghost const dataNames: iset<Name>
    const capacity: nat

    var nPitEntries: nat
    var pitTokenMap: map<Token, PitEntry>
    var nCsEntries: nat
    const csReplacement: CsLRU
    var csMap: map<Hash, CsEntry>

    ghost var nodes: Nodes
    ghost var contents: Contents
    ghost var Repr: set<PitCsTreeNode>
    ghost var csRepr: set<CsEntry>
    /** What the table means: the pending entries, and the cached Data. */
    ghost var pit: Pit
    ghost var cached: map<Name, Cached>

    ghost predicate Mirrors(node: PitCsTreeNode, c: Content)
      reads node
    {
      node.children == c.children && node.pitEntries == c.pitEntries && node.csEntry == c.csEntry
    }

    ghost predicate TiedAt(p: Name)
      reads this`nodes, this`contents, this`Repr, Repr
    {
      p in nodes ==> p in contents && nodes[p].path == p && nodes[p] in Repr && Mirrors(nodes[p], contents[p])
    }

    /** The nodes in the tree hold what `contents` says. */
    ghost predicate Mirrored()
      reads this`nodes, this`contents, this`Repr, Repr
    {
      forall p {:trigger TiedAt(p)} :: TiedAt(p)
    }

    /** The node hangs in the tree. */
    ghost predicate InTree(node: PitCsTreeNode)
      reads this`nodes
    {
      node.path in nodes && nodes[node.path] == node
    }

    ghost predicate EmptyIfGone(node: PitCsTreeNode)
      reads this`nodes, node
    {
      InTree(node) || node.pitEntries == []
    }

    /** Nodes out of the tree hold no pending Interest. */
    ghost predicate Detached()
      reads this`nodes, this`Repr, Repr
    {
      forall node {:trigger EmptyIfGone(node)} :: node in Repr ==> EmptyIfGone(node)
    }

    /** The tree is in order, and so is what hangs in it. */
    ghost predicate TreeOk()
      reads this`nodes, this`contents, this`pit, this`csMap, this`Repr, Repr
    {
      TreeFor(pit, csMap) == true
    }

    /** The same for a meaning and an index map that the fields are to have. */
    ghost predicate TreeFor(pit: Pit, csMap: map<Hash, CsEntry>)
      reads this`nodes, this`contents, this`Repr, Repr
    {
      (Sound(root, nodes, contents, hash, components, pit, csMap, nameHash) && Mirrored() && Detached()) == true
    }

    /** The pending entries: as many as the counter says, and all in the token map. */
    ghost predicate PitPart()
      reads this`pit, this`pitTokenMap, this`nPitEntries
    {
      (TokensOk(pit, pitTokenMap) && nPitEntries == |pit|) == true
    }

    /** The entry holds what `cached` says of its name. */
    ghost predicate Keeps(h: Hash)
      reads this`csMap, this`cached, this`csRepr, csRepr
    {
      h in csMap ==>
        var e := csMap[h];
        && e in csRepr && e.node.path in cached
        && e.encData == cached[e.node.path].data && e.staleTime == cached[e.node.path].staleTime
    }

    ghost predicate InMap(p: Name)
      reads this`csMap, this`cached
    {
      p in cached ==>
        && p in dataNames && cached[p].data.name == p
        && IndexOf(nameHash, p) in csMap && csMap[IndexOf(nameHash, p)].node.path == p
    }

    /** The cached Data: as many as the counter says, with what their entries hold. */
    ghost predicate CsPart()
      reads this`csMap, this`cached, this`csRepr, this`nCsEntries, csRepr
    {
      (&& nCsEntries == |csMap|
       && (forall h {:trigger Keeps(h)} :: Keeps(h))
       && (forall p {:trigger InMap(p)} :: InMap(p))) == true
    }

    /** The replacement policy lists exactly the indices of the cached Data. */
    ghost predicate LruPart()
      reads this`csMap, csReplacement
    {
      (csReplacement.Valid() && Indices(csReplacement.order) == csMap.Keys && |csReplacement.order| == |csMap|) == true
    }

    /** Everything is in order, but the Content Store may be over its capacity. The parts are given only
        to those who ask with Unfold, so that others carry this over as a whole. */
    ghost predicate Whole()
      reads this`nodes, this`contents, this`pit, this`pitTokenMap, this`nPitEntries, this`csMap, this`nCsEntries,
          this`cached
      reads this`Repr, this`csRepr, Repr, csRepr, csReplacement
    {
      forall k {:trigger Unfold(k)} :: Unfold(k) ==>
        TreeOk() && PitPart() && CsPart() && LruPart() && CollisionFree(nameHash, dataNames)
    }

    ghost predicate Valid()
      reads this`nodes, this`contents, this`pit, this`pitTokenMap, this`nPitEntries, this`csMap, this`nCsEntries,
          this`cached
      reads this`Repr, this`csRepr, Repr, csRepr, csReplacement
    {
      (Whole() && nCsEntries <= capacity) == true
    }

    constructor (hash: Component -> Hash, ghost components: iset<Component>,
                 nameHash: Name -> Hash, ghost dataNames: iset<Name>, capacity: nat)
      requires Injective(hash, components) && CollisionFree(nameHash, dataNames)
      ensures Valid() && fresh(Repr) && fresh(csRepr) && fresh(csReplacement)
      ensures pit == map[] && cached == map[]
      ensures this.hash == hash && this.components == components && this.capacity == capacity
      ensures this.nameHash == nameHash && this.dataNames == dataNames
    {
      var node := new PitCsTreeNode.AtRoot();
      var lru := new CsLRU();
      AloneOk(node, hash, components, nameHash);
      this.hash, this.components, this.capacity := hash, components, capacity;
      this.nameHash, this.dataNames := nameHash, dataNames;
      root, csReplacement := node, lru;
      nPitEntries, pitTokenMap, nCsEntries, csMap := 0, map[], 0, map[];
      pit, cached, csRepr := map[], map[], {};
      nodes, contents, Repr := map[Root := node], map[Root := EMPTY], {node};
    }

    // ---------- lookups ----------

    ghost predicate On(node: PitCsTreeNode, name: Name)
      reads this`nodes
    {
      InTree(node) && IsPrefix(node.path, name)
    }

    /** A child under the hash of the next component stands for the next prefix. */
    lemma ChildFound(node: PitCsTreeNode, name: Name)
      requires Shape(root, nodes, contents, hash, components) && TiedAt(node.path)
      requires On(node, name) && Len(node.path) < Len(name) && Spelled(components, name)
      ensures var h, next := Slot(hash, At(name, node.depth)), Prefix(name, Len(node.path) + 1);
              && node.depth == Len(node.path) && (h in node.children <==> next in nodes)
              && (h in node.children ==> node.children[h].path == next && On(node.children[h], name))
    {
      var k := Len(node.path);
      NextPrefix(name, k);
      SpelledAt(components, name, k);
      ChildIff(root, nodes, contents, hash, components, node.path, At(name, k));
      assert Hangs(nodes, components, node.path);
    }

    function FindExactMatch(node: PitCsTreeNode, name: Name): (r: PitCsTreeNode?)
      requires TreeOk() && On(node, name) && Spelled(components, name)
      reads this, Repr
      ensures r == if name in nodes then nodes[name] else null
      decreases Len(name) - Len(node.path)
    {
      assert TiedAt(node.path) && Hangs(nodes, components, node.path);
      if Len(name) > node.depth then
        ChildFound(node, name);
        var h := Slot(hash, At(name, node.depth));
        if h in node.children then FindExactMatch(node.children[h], name)
        else
          PrefixesOn(root, nodes, contents, hash, components, name, Len(node.path) + 1);
          null
      else
        assert node.path == name;
        node
    }

    function FindLongestPrefix(node: PitCsTreeNode, name: Name): (r: PitCsTreeNode)
      requires TreeOk() && On(node, name) && Spelled(components, name)
      reads this, Repr
      ensures On(r, name) && (r.path == name || Prefix(name, Len(r.path) + 1) !in nodes)
      decreases Len(name) - Len(node.path)
    {
      assert TiedAt(node.path) && Hangs(nodes, components, node.path);
      if Len(name) > node.depth then
        ChildFound(node, name);
        var h := Slot(hash, At(name, node.depth));
        if h in node.children then FindLongestPrefix(node.children[h], name) else node
      else
        assert node.path == name;
        node
    }

    // ---------- filling and pruning the tree ----------

    /** Adds the nodes that are missing on the way to the name. */
    method FillTreeToPrefix(name: Name) returns (node: PitCsTreeNode)
      requires TreeOk() && Spelled(components, name)
      modifies this`nodes, this`contents, this`Repr, Repr`children
      ensures TreeOk() && Grown()
      ensures name in nodes && node == nodes[name] && node in Repr
    {
      var curNode := FindLongestPrefix(root, name);
      assert Hangs(nodes, components, curNode.path);
      ghost var added;
      node, added := FillFrom(curNode, name, curNode.depth + 1);
      assert TiedAt(name);
    }

    /** Only new nodes have joined the representation. */
    twostate predicate Grown()
      reads this`Repr
    {
      (forall o :: o in Repr ==> o in old(Repr) || fresh(o)) == true
    }

    /** Only new entries have joined the representation of the Content Store. */
    twostate predicate CsGrown()
      reads this`csRepr
    {
      (forall e :: e in csRepr ==> e in old(csRepr) || fresh(e)) == true
    }

    /** The loop over depths, from the first one that is missing. */
    method FillFrom(curNode: PitCsTreeNode, name: Name, depth: nat)
      returns (node: PitCsTreeNode, ghost added: set<PitCsTreeNode>)
      requires TreeOk() && Spelled(components, name)
      requires On(curNode, name) && depth == Len(curNode.path) + 1
      requires curNode.path == name || Prefix(name, depth) !in nodes
      modifies this`nodes, this`contents, this`Repr, Repr`children
      ensures TreeOk()
      ensures Repr == old(Repr) + added && fresh(added)
      ensures name in nodes && node == nodes[name]
      decreases Len(name) + 1 - depth
    {
      assert TiedAt(curNode.path);
      if depth <= Len(name) {
        var newNode := AddNext(curNode, name, depth);
        ghost var more;
        node, more := FillFrom(newNode, name, depth + 1);
        added := more + {newNode};
      } else {
        node, added := curNode, {};
      }
    }

    /** One step of the loop. */
    method AddNext(curNode: PitCsTreeNode, name: Name, depth: nat) returns (newNode: PitCsTreeNode)
      requires TreeOk() && Spelled(components, name)
      requires On(curNode, name) && depth == Len(curNode.path) + 1 <= Len(name) && Prefix(name, depth) !in nodes
      modifies this`nodes, this`contents, this`Repr, curNode`children
      ensures TreeOk()
      ensures Repr == old(Repr) + {newNode} && fresh(newNode)
      ensures On(newNode, name) && Len(newNode.path) == depth
      ensures newNode.path == name || Prefix(name, depth + 1) !in nodes
    {
      newNode := new PitCsTreeNode.Below(curNode, At(name, depth - 1), depth);
      SpelledAt(components, name, depth - 1);
      NextName(root, nodes, contents, hash, components, curNode, newNode, name, depth);
      Link(curNode, newNode);
      AddOk(root, old(nodes), old(contents), hash, components, pit, csMap, nameHash, curNode, newNode, nodes, contents);
    }

    method Link(node: PitCsTreeNode, child: PitCsTreeNode)
      requires Mirrored() && Detached() && nodes.Keys == contents.Keys
      requires InTree(node) && child.path !in nodes && child !in Repr
      requires child.children == map[] && child.pitEntries == [] && child.csEntry == null
      modifies this`nodes, this`contents, this`Repr, node`children
      ensures Mirrored() && Detached() && Repr == old(Repr) + {child} && nodes == old(nodes)[child.path := child]
      ensures contents == WithKid(old(contents), node.path, Slot(hash, child.component), child, child.path)
    {
      var h := Slot(hash, child.component);
      assert TiedAt(node.path);
      node.children := node.children[h := child];
      nodes := nodes[child.path := child];
      contents := WithKid(contents, node.path, h, child, child.path);
      Repr := Repr + {child};
      forall p ensures TiedAt(p) {
        assert old(TiedAt(p));
      }
      forall o | o in Repr ensures EmptyIfGone(o) {
        assert o != child ==> old(EmptyIfGone(o));
      }
    }

    /** Takes out the node if it holds nothing and has no children, and then each ancestor that is
        left so, up to the first that holds something, or the root; nothing else goes. */
    method PruneIfEmpty(node: PitCsTreeNode) returns (ghost top: Name)
      requires TreeOk() && InTree(node)
      modifies this`nodes, this`contents, Repr`children
      ensures TreeOk() && PrunedTo(old(nodes), old(contents), nodes, contents, node.path, top)
      decreases Len(node.path)
    {
      assert TiedAt(node.path) && Hangs(nodes, components, node.path);
      if node.parent != null && |node.children| == 0 && |node.pitEntries| == 0 && node.csEntry == null {
        assert TiedAt(node.path.prefix);
        Unlink(node);
        top := PruneIfEmpty(node.parent);
        PrunedMore(old(nodes), old(contents), nodes, contents, node.path, Slot(hash, node.path.last), top);
      } else {
        top := node.path;
        PrunedNone(nodes, contents, top);
      }
    }

    method Unlink(node: PitCsTreeNode)
      requires TreeOk() && InTree(node) && node.parent != null
      requires node.children == map[] && node.pitEntries == [] && node.csEntry == null
      modifies this`nodes, this`contents, node.parent`children
      ensures TreeOk() && InTree(node.parent) && node.path != Root && node.parent.path == node.path.prefix
      ensures nodes == old(nodes) - {node.path}
      ensures node.path.prefix in old(contents)
              && contents == WithoutKid(old(contents), node.path, Slot(hash, node.path.last))
    {
      var q := node.path;
      assert TiedAt(q) && Hangs(nodes, components, q) && TiedAt(q.prefix);
      UnlinkStore(node);
      DropOk(root, old(nodes), old(contents), hash, components, pit, csMap, nameHash, q, nodes, contents);
    }

    method UnlinkStore(node: PitCsTreeNode)
      requires Mirrored() && Detached() && InTree(node) && node.path != Root && node.path.prefix in nodes
      requires node.parent == nodes[node.path.prefix] && node.component == node.path.last && nodes.Keys == contents.Keys
      requires node.children == map[] && node.pitEntries == [] && node.csEntry == null
      modifies this`nodes, this`contents, node.parent`children
      ensures Mirrored() && Detached() && nodes == old(nodes) - {node.path}
      ensures contents == WithoutKid(old(contents), node.path, Slot(hash, node.path.last))
    {
      var h, q := Slot(hash, node.component), node.path;
      assert TiedAt(q) && TiedAt(q.prefix);
      node.parent.children := node.parent.children - {h};
      contents := WithoutKid(contents, q, h);
      nodes := nodes - {q};
      forall p ensures TiedAt(p) {
        assert old(TiedAt(p));
      }
      forall o | o in Repr ensures EmptyIfGone(o) {
        assert old(EmptyIfGone(o));
      }
    }

    // ---------- pending Interests ----------

    /** The pending entry that an Interest would join, or null. */
    method FindEntry(node: PitCsTreeNode, key: PitKey) returns (entry: PitEntry?)
      requires TreeOk() && InTree(node) && key.name == node.path
      ensures entry == if key in pit then pit[key] else null
    {
      assert TiedAt(node.path) && ListOk(nodes, contents, pit, node.path) && Listed(contents, pit, key);
      var i := 0;
      while i < |node.pitEntries|
        invariant i <= |node.pitEntries|
        invariant forall j :: 0 <= j < i ==> node.pitEntries[j].key != key
      {
        var curEntry := node.pitEntries[i];
        assert LiveAt(nodes, pit, node.path, curEntry);
        if curEntry.key.canBePrefix == key.canBePrefix && curEntry.key.mustBeFresh == key.mustBeFresh
           && curEntry.key.hint == key.hint {
          return curEntry;
        }
        i := i + 1;
      }
      entry := null;
    }

    /** Whether the nonce came in already, from another face. */
    static method IsDuplicate(entry: PitEntry, inFace: FaceId, nonce: Nonce) returns (duplicate: bool)
      ensures duplicate
              <==> exists face :: face in entry.inRecords && face != inFace && entry.inRecords[face].nonce == nonce
    {
      var rest := entry.inRecords.Keys;
      while rest != {}
        invariant rest <= entry.inRecords.Keys
        invariant forall face :: face in entry.inRecords && face !in rest ==>
                    face == inFace || entry.inRecords[face].nonce != nonce
        decreases rest
      {
        var face :| face in rest;
        if face != inFace && entry.inRecords[face].nonce == nonce {
          return true;
        }
        rest := rest - {face};
      }
      duplicate := false;
    }

    /** Gives the pending entry of an Interest, a new one if there was none, and whether the nonce
        is a duplicate. `token` is the random token that a new entry gets. */
    method InsertInterest(key: PitKey, nonce: Nonce, inFace: FaceId, token: Token)
      returns (entry: PitEntry, duplicate: bool)
      requires Valid() && Spelled(components, key.name) && token !in pitTokenMap
      modifies this`nodes, this`contents, this`Repr, this`pit, this`pitTokenMap, this`nPitEntries
      modifies Repr`children, Repr`pitEntries
      modifies if key in pit then {pit[key]} else {}
      ensures Valid() && Grown()
      ensures if key in old(pit)
              then entry == old(pit)[key] && pit == old(pit) && entry.inRecords == old(pit[key].inRecords)
              else fresh(entry) && IsNew(entry, key, token) && pit == old(pit)[key := entry]
      ensures duplicate
              <==> exists face :: face in entry.inRecords && face != inFace && entry.inRecords[face].nonce == nonce
      ensures !duplicate ==> entry.expirationTime == 0
    {
      entry := Enter(key, token);
      duplicate := Admit(entry, inFace, nonce);
      assert Whole() == true;
    }

    method Enter(key: PitKey, token: Token) returns (entry: PitEntry)
      requires Valid() && Spelled(components, key.name) && token !in pitTokenMap
      modifies this`nodes, this`contents, this`Repr, this`pit, this`pitTokenMap, this`nPitEntries
      modifies Repr`children, Repr`pitEntries
      ensures Valid() && Grown()
      ensures if key in old(pit)
              then entry == old(pit)[key] && pit == old(pit) && entry.inRecords == old(pit[key].inRecords)
              else fresh(entry) && IsNew(entry, key, token) && pit == old(pit)[key := entry]
    {
      assert Unfold(0);
      entry := FindOrAdd(key, token);
      assert CsPart() == true && LruPart() == true;
    }

    ghost predicate IsNew(entry: PitEntry, key: PitKey, token: Token)
      reads entry
    {
      entry.key == key && entry.token == token && entry.inRecords == map[]
    }

    method FindOrAdd(key: PitKey, token: Token) returns (entry: PitEntry)
      requires TreeOk() && PitPart() && Spelled(components, key.name) && token !in pitTokenMap
      modifies this`nodes, this`contents, this`Repr, this`pit, this`pitTokenMap, this`nPitEntries
      modifies Repr`children, Repr`pitEntries
      ensures TreeOk() && PitPart() && Grown()
      ensures if key in old(pit) then entry == old(pit)[key] && pit == old(pit)
              else fresh(entry) && IsNew(entry, key, token) && pit == old(pit)[key := entry]
    {
      var node := FillTreeToPrefix(key.name);
      assert TiedAt(key.name);
      entry := EntryAt(node, key, token);
    }

    method EntryAt(node: PitCsTreeNode, key: PitKey, token: Token) returns (entry: PitEntry)
      requires TreeOk() && PitPart() && InTree(node) && node.path == key.name && token !in pitTokenMap
      modifies this`contents, this`pit, this`pitTokenMap, this`nPitEntries, node`pitEntries
      ensures TreeOk() && PitPart()
      ensures if key in old(pit) then entry == old(pit)[key] && pit == old(pit)
              else fresh(entry) && IsNew(entry, key, token) && pit == old(pit)[key := entry]
    {
      var found := FindEntry(node, key);
      if found == null {
        entry := new PitEntry(key, token, node);
        AppendEntry(node, entry);
      } else {
        entry := found;
      }
    }

    static method Admit(entry: PitEntry, inFace: FaceId, nonce: Nonce) returns (duplicate: bool)
      modifies entry`expirationTime
      ensures duplicate
              <==> exists face :: face in entry.inRecords && face != inFace && entry.inRecords[face].nonce == nonce
      ensures entry.expirationTime == if duplicate then old(entry.expirationTime) else 0
    {
      duplicate := IsDuplicate(entry, inFace, nonce);
      if !duplicate {
        entry.expirationTime := 0;
      }
    }

    method AppendEntry(node: PitCsTreeNode, entry: PitEntry)
      requires TreeOk() && PitPart() && InTree(node)
      requires entry.key !in pit && entry.key.name == node.path && entry.node == node && entry.token !in pitTokenMap
      modifies this`contents, this`pit, this`pitTokenMap, this`nPitEntries, node`pitEntries
      ensures TreeOk() && PitPart() && pit == old(pit)[entry.key := entry]
    {
      ExtendList(node, entry);
      RememberEntry(entry);
    }

    method ExtendList(node: PitCsTreeNode, entry: PitEntry)
      requires TreeOk() && InTree(node)
      requires entry.key !in pit && entry.key.name == node.path && entry.node == node
      modifies this`contents, node`pitEntries
      ensures TreeFor(pit[entry.key := entry], csMap)
    {
      ghost var pit' := pit[entry.key := entry];
      assert TiedAt(node.path);
      StoreEntries(node, node.pitEntries + [entry]);
      InsertOk(root, nodes, old(contents), hash, components, pit, csMap, nameHash, entry, contents, pit');
    }

    /** The counter and the token map follow the list. */
    method RememberEntry(entry: PitEntry)
      requires PitPart() && entry.key !in pit && entry.token !in pitTokenMap && TreeFor(pit[entry.key := entry], csMap)
      modifies this`pit, this`pitTokenMap, this`nPitEntries
      ensures TreeOk() && PitPart() && pit == old(pit)[entry.key := entry]
    {
      AddToken(pit, pitTokenMap, entry);
      nPitEntries := nPitEntries + 1;
      pitTokenMap := pitTokenMap[entry.token := entry];
      pit := pit[entry.key := entry];
    }

    method StoreEntries(node: PitCsTreeNode, entries: seq<PitEntry>)
      requires Mirrored() && Detached() && InTree(node) && node.path in contents
      modifies this`contents, node`pitEntries
      ensures Mirrored() && Detached()
      ensures contents == WithEntries(old(contents), node.path, entries)
    {
      node.pitEntries := entries;
      contents := WithEntries(contents, node.path, entries);
      forall p ensures TiedAt(p) {
        assert old(TiedAt(p));
      }
      forall o | o in Repr ensures EmptyIfGone(o) {
        assert old(EmptyIfGone(o));
      }
    }

    /** Removes a pending entry; says whether it was there. `pitEntry` may be any entry that the
        table ever gave out. */
    method RemoveInterest(pitEntry: PitEntry) returns (removed: bool)
      requires Valid() && pitEntry.node in Repr && pitEntry.node.path == pitEntry.key.name
      modifies this`nodes, this`contents, this`pit, this`pitTokenMap, this`nPitEntries
      modifies Repr`children, Repr`pitEntries
      ensures Valid()
      ensures removed == (pitEntry.key in old(pit) && old(pit)[pitEntry.key] == pitEntry)
      ensures pit == if removed then old(pit) - {pitEntry.key} else old(pit)
    {
      assert Unfold(0);
      var i := IndexInNode(pitEntry);
      removed := i < |pitEntry.node.pitEntries|;
      if removed {
        Drop(pitEntry, i);
      }
    }

    method Drop(e: PitEntry, i: nat)
      requires Valid() && InTree(e.node) && e.node.path == e.key.name
      requires i < |e.node.pitEntries| && e.node.pitEntries[i] == e
      modifies this`nodes, this`contents, this`pit, this`pitTokenMap, this`nPitEntries
      modifies Repr`children, Repr`pitEntries
      ensures Valid() && pit == old(pit) - {e.key}
    {
      assert Unfold(0);
      CutEntry(e, i);
      assert CsPart() == true;
      assert LruPart() == true;
    }

    /** The place of the entry in its node's list, or the length of that if it is not pending. */
    method IndexInNode(e: PitEntry) returns (i: nat)
      requires TreeOk() && e.node in Repr && e.node.path == e.key.name
      ensures i <= |e.node.pitEntries|
      ensures i < |e.node.pitEntries| <==> e.key in pit && pit[e.key] == e
      ensures i < |e.node.pitEntries| ==> InTree(e.node) && e.node.pitEntries[i] == e
    {
      i := 0;
      while i < |e.node.pitEntries| && e.node.pitEntries[i] != e
        invariant i <= |e.node.pitEntries| && forall j :: 0 <= j < i ==> e.node.pitEntries[j] != e
      {
        i := i + 1;
      }
      assert EmptyIfGone(e.node) && TiedAt(e.key.name) && Listed(contents, pit, e.key);
      assert ListOk(nodes, contents, pit, e.key.name);
      if i < |e.node.pitEntries| {
        assert LiveAt(nodes, pit, e.key.name, e);
      }
      if e.key in pit && pit[e.key] == e {
        assert LiveAt(nodes, pit, e.key.name, e);
      }
    }

    method CutEntry(e: PitEntry, i: nat)
      requires TreeOk() && PitPart() && InTree(e.node) && e.node.path == e.key.name
      requires i < |e.node.pitEntries| && e.node.pitEntries[i] == e
      modifies this`nodes, this`contents, this`pit, this`pitTokenMap, this`nPitEntries
      modifies Repr`children, Repr`pitEntries
      ensures TreeOk() && PitPart() && pit == old(pit) - {e.key}
    {
      assert TiedAt(e.node.path);
      Delist(e.node, i);
      if |e.node.pitEntries| == 0 {
        ghost var _ := PruneIfEmpty(e.node);
      }
    }

    lemma Pending(node: PitCsTreeNode, i: nat)
      requires TreeOk() && InTree(node) && i < |node.pitEntries|
      ensures var e := node.pitEntries[i]; e.key in pit && pit[e.key] == e
      ensures node.path in contents && contents[node.path].pitEntries == node.pitEntries
    {
      assert TiedAt(node.path) && ListOk(nodes, contents, pit, node.path);
      assert LiveAt(nodes, pit, node.path, node.pitEntries[i]);
    }

    method Delist(node: PitCsTreeNode, i: nat)
      requires TreeOk() && PitPart() && InTree(node) && i < |node.pitEntries|
      modifies this`contents, this`pit, this`pitTokenMap, this`nPitEntries, node`pitEntries
      ensures TreeOk() && PitPart() && pit == old(pit) - {old(node.pitEntries[i].key)}
    {
      var e := node.pitEntries[i];
      Pending(node, i);
      CutList(node, i);
      ForgetEntry(e);
    }

    method CutList(node: PitCsTreeNode, i: nat)
      requires TreeOk() && InTree(node) && i < |node.pitEntries|
      modifies this`contents, node`pitEntries
      ensures TreeFor(pit - {old(node.pitEntries[i].key)}, csMap)
    {
      Pending(node, i);
      ghost var pit' := pit - {node.pitEntries[i].key};
      StoreEntries(node, SwapDelete(node.pitEntries, i));
      RemoveOk(root, nodes, old(contents), hash, components, pit, csMap, nameHash, node.path, i, contents, pit');
    }

    /** The counter and the token map follow the list. */
    method ForgetEntry(e: PitEntry)
      requires PitPart() && e.key in pit && pit[e.key] == e && TreeFor(pit - {e.key}, csMap)
      modifies this`pit, this`pitTokenMap, this`nPitEntries
      ensures TreeOk() && PitPart() && pit == old(pit) - {e.key}
    {
      RemoveToken(pit, pitTokenMap, e);
      nPitEntries := nPitEntries - 1;
      pitTokenMap := pitTokenMap - {e.token};
      pit := pit - {e.key};
    }

    // ---------- matching Data with pending Interests ----------

    /** Each pending entry that the Data satisfies, once, those with the longest names first. */
    method FindByName(name: Name) returns (matching: seq<PitEntry>)
      requires TreeOk() && Spelled(components, name)
      ensures Picks(pit, matching, Satisfied(name))
    {
      var node := FindLongestPrefix(root, name);
      UpwardMeaning(root, nodes, contents, hash, components, pit, node.path, Len(name));
      UpwardIsAll(root, nodes, contents, hash, components, pit, node.path, name);
      matching := Collect(node, Len(name));
    }

    /** The loop from a node up to the root. */
    method Collect(node: PitCsTreeNode, dataNameLen: nat) returns (matching: seq<PitEntry>)
      requires TreeOk() && InTree(node)
      ensures matching == Upward(contents, node.path, dataNameLen)
    {
      var curNode: PitCsTreeNode? := node;
      matching := [];
      ghost var all, rest := Upward(contents, node.path, dataNameLen), Upward(contents, node.path, dataNameLen);
      while curNode != null
        invariant curNode != null ==> InTree(curNode)
        invariant matching + rest == all && rest == UpwardFrom(contents, curNode, dataNameLen)
        decreases if curNode == null then 0 else 1 + Len(curNode.path)
      {
        ParentOf(curNode);
        var usable := FilterUsable(curNode.pitEntries, curNode.depth == dataNameLen);
        rest := UpwardStep(curNode, dataNameLen, usable, matching, rest);
        matching := matching + usable;
        curNode := curNode.parent;
      }
      assert rest == [] && matching + [] == matching;
    }

    /** What a node of the tree knows, and where its parent is. */
    lemma ParentOf(node: PitCsTreeNode)
      requires TreeOk() && InTree(node)
      ensures node.path in contents && Mirrors(node, contents[node.path]) && node.depth == Len(node.path)
      ensures node.parent == null <==> node.path == Root
      ensures node.parent != null ==> InTree(node.parent) && node.parent.path == node.path.prefix
    {
      assert TiedAt(node.path) && Hangs(nodes, components, node.path);
      if node.path != Root {
        assert Hangs(nodes, components, node.path.prefix);
      }
    }

    lemma UpwardStep(node: PitCsTreeNode, n: nat, usable: seq<PitEntry>, done: seq<PitEntry>, rest: seq<PitEntry>)
      returns (rest': seq<PitEntry>)
      requires TreeOk() && InTree(node)
      requires rest == UpwardFrom(contents, node, n) && usable == Usable(node.pitEntries, node.depth == n)
      ensures rest' == UpwardFrom(contents, node.parent, n) && done + rest == (done + usable) + rest'
    {
      ParentOf(node);
      rest' := UpwardFrom(contents, node.parent, n);
      assert rest == usable + rest';
    }

    static method FilterUsable(entries: seq<PitEntry>, exact: bool) returns (usable: seq<PitEntry>)
      ensures usable == Usable(entries, exact)
    {
      usable := [];
      var i := 0;
      while i < |entries|
        invariant i <= |entries| && usable == Usable(entries[..i], exact)
      {
        assert entries[..i + 1][..i] == entries[..i];
        if entries[i].key.canBePrefix || exact {
          usable := usable + [entries[i]];
        }
        i := i + 1;
      }
      assert entries[..|entries|] == entries;
    }

    /** The entries that Data with this name satisfies; with a token, the one that has it. */
    method FindInterestPrefixMatchByData(name: Name, token: Option<Token>) returns (matching: seq<PitEntry>)
      requires Valid() && Spelled(components, name)
      ensures token.None? ==> Picks(pit, matching, Satisfied(name))
      ensures token.Some? ==> Picks(pit, matching, iset k | k in pit && pit[k].token == token.value)
    {
      assert Unfold(0);
      if token.Some? {
        assert TokenLeads(pit, pitTokenMap, token.value);
        forall k | k in pit && pit[k].token == token.value
          ensures token.value in pitTokenMap && pitTokenMap[token.value] == pit[k]
        {
          assert TokenHas(pit, pitTokenMap, k);
        }
        if token.value in pitTokenMap && pitTokenMap[token.value].token == token.value {
          matching := [pitTokenMap[token.value]];
        } else {
          matching := [];
        }
      } else {
        matching := FindByName(name);
      }
    }

    // ---------- the Content Store ----------

    /** Where the cached Data of a name is. */
    lemma CachedWhere(name: Name)
      requires TreeOk() && CsPart() && name in cached
      ensures name in nodes && name in contents && contents[name].csEntry != null
      ensures var e := contents[name].csEntry;
              && e.index == IndexOf(nameHash, name) && e.index in csMap && csMap[e.index] == e && e.node.path == name
              && e in csRepr && e.encData == cached[name].data && e.staleTime == cached[name].staleTime
    {
      var h := IndexOf(nameHash, name);
      assert InMap(name) && Keeps(h) && Indexed(contents, csMap, h);
      assert CachedAt(nodes, contents, csMap, nameHash, name);
    }

    /** Cached Data at a node is that of the node's name. */
    lemma CachedHere(p: Name)
      requires TreeOk() && CsPart() && p in contents && contents[p].csEntry != null
      ensures p in cached
    {
      assert CachedAt(nodes, contents, csMap, nameHash, p) && Keeps(contents[p].csEntry.index);
    }

    /** The index map has the hash of a name just when the name is cached. */
    lemma IndexedName(name: Name)
      requires TreeOk() && CsPart() && name in dataNames && CollisionFree(nameHash, dataNames)
      ensures IndexOf(nameHash, name) in csMap <==> name in cached
      ensures name in cached ==> csMap[IndexOf(nameHash, name)].node.path == name
    {
      var h := IndexOf(nameHash, name);
      assert InMap(name);
      if h in csMap {
        var p := csMap[h].node.path;
        assert Indexed(contents, csMap, h) && CachedAt(nodes, contents, csMap, nameHash, p) && Keeps(h) && InMap(p);
      }
    }

    /** Drops the Data with an index; nothing happens if there is none. */
    method EraseCsData(index: Hash)
      requires TreeOk() && CsPart()
      modifies this`contents, this`csMap, this`nCsEntries, this`cached, Repr`csEntry
      ensures TreeOk() && CsPart()
      ensures csMap == old(csMap) - {index}
      ensures cached == old(cached) - if index in old(csMap) then {old(csMap)[index].node.path} else {}
    {
      if index in csMap {
        EraseEntry(index);
      }
    }

    method EraseEntry(index: Hash)
      requires TreeOk() && CsPart() && index in csMap
      modifies this`contents, this`csMap, this`nCsEntries, this`cached, Repr`csEntry
      ensures TreeOk() && CsPart()
      ensures csMap == old(csMap) - {index}
      ensures cached == old(cached) - {old(csMap)[index].node.path}
    {
      var entry := csMap[index];
      EntryPlace(index);
      ClearNode(entry.node, index);
      ForgetIndex(index);
    }

    /** The node gives up its cached Data, and the index map is to follow. */
    method ClearNode(node: PitCsTreeNode, index: Hash)
      requires TreeOk() && index in csMap && node == csMap[index].node && InTree(node) && node.path in contents
      modifies this`contents, node`csEntry
      ensures TreeFor(pit, csMap - {index})
    {
      StoreCs(node, null);
      EraseOk(root, nodes, old(contents), hash, components, pit, csMap, nameHash, index, contents, csMap - {index});
    }

    method StoreCs(node: PitCsTreeNode, e: CsEntry?)
      requires Mirrored() && Detached() && InTree(node) && node.path in contents
      modifies this`contents, node`csEntry
      ensures Mirrored() && Detached()
      ensures contents == WithCs(old(contents), node.path, e)
    {
      node.csEntry := e;
      contents := WithCs(contents, node.path, e);
      forall p ensures TiedAt(p) {
        assert old(TiedAt(p));
      }
      forall o | o in Repr ensures EmptyIfGone(o) {
        assert old(EmptyIfGone(o));
      }
    }

    /** Other entries of the index map have other names. */
    ghost predicate OneName(index: Hash)
      reads this`csMap
    {
      index in csMap && forall h :: h in csMap && h != index ==> csMap[h].node.path != csMap[index].node.path
    }

    lemma EntryPlace(index: Hash)
      requires TreeOk() && index in csMap
      ensures InTree(csMap[index].node) && csMap[index].node in Repr && csMap[index].node.path in contents
      ensures OneName(index)
    {
      var p := csMap[index].node.path;
      assert Indexed(contents, csMap, index) && CachedAt(nodes, contents, csMap, nameHash, p) && TiedAt(p);
      forall h | h in csMap && h != index ensures csMap[h].node.path != csMap[index].node.path {
        assert Indexed(contents, csMap, h) && Indexed(contents, csMap, index);
      }
    }

    method ForgetIndex(index: Hash)
      requires CsPart() && OneName(index)
      modifies this`csMap, this`nCsEntries, this`cached
      ensures CsPart() && csMap == old(csMap) - {index} && cached == old(cached) - {old(csMap)[index].node.path}
    {
      var p := csMap[index].node.path;
      csMap := csMap - {index};
      nCsEntries := nCsEntries - 1;
      cached := cached - {p};
      forall h ensures Keeps(h) {
        assert old(Keeps(h));
      }
      forall n ensures InMap(n) {
        assert old(InMap(n));
      }
    }

    /** The cached Data whose indices are in the order. */
    ghost function Kept(c: map<Name, Cached>, order: seq<Hash>): map<Name, Cached> {
      map n | n in c && IndexOf(nameHash, n) in order :: c[n]
    }

    /** Evicts the Data that has gone unused the longest. */
    method EvictOne()
      requires Whole() && csReplacement.order != []
      modifies this`contents, this`csMap, this`nCsEntries, this`cached, Repr`csEntry, csReplacement
      ensures Whole()
      ensures csReplacement.order == old(csReplacement.order[1..])
      ensures cached == Kept(old(cached), csReplacement.order)
    {
      assert Unfold(0);
      EraseFirst();
      var _ := csReplacement.RemoveFront();
      assert TreeOk() == PitPart() == CsPart() == true;
    }

    method EraseFirst()
      requires Whole() && csReplacement.order != []
      modifies this`contents, this`csMap, this`nCsEntries, this`cached, Repr`csEntry
      ensures TreeOk() && PitPart() && CsPart() && |csMap| == |csReplacement.order| - 1
      ensures Indices(csReplacement.order[1..]) == csMap.Keys && cached == Kept(old(cached), csReplacement.order[1..])
    {
      assert Unfold(0);
      assert csReplacement.LocatedAt(0);
      FirstOut(csReplacement.order);
      var indexToErase := csReplacement.queue[0].value;
      EraseCsData(indexToErase);
    }

    /** What is left without the first of the order. */
    lemma FirstOut(order: seq<Hash>)
      requires TreeOk() && CsPart() && Distinct(order) && Indices(order) == csMap.Keys && order != []
      ensures order[0] in csMap && Indices(order[1..]) == csMap.Keys - {order[0]}
      ensures Kept(cached, order[1..]) == cached - {csMap[order[0]].node.path}
    {
      WithoutFirst(order, order[0]);
      assert order[0] in Indices(order);
      forall n | n in cached ensures IndexOf(nameHash, n) in order[1..] <==> n != csMap[order[0]].node.path {
        StillIn(n, order[0]);
        WithoutFirst(order, IndexOf(nameHash, n));
      }
    }

    lemma StillIn(n: Name, first: Hash)
      requires TreeOk() && CsPart() && n in cached && first in csMap
      ensures IndexOf(nameHash, n) in csMap && (IndexOf(nameHash, n) == first <==> n == csMap[first].node.path)
    {
      assert InMap(n) && Indexed(contents, csMap, first);
      assert CachedAt(nodes, contents, csMap, nameHash, csMap[first].node.path);
    }

    /** The last indices of the order, as many as there is room for. */
    static function Newest(order: seq<Hash>, capacity: nat): seq<Hash> {
      if |order| <= capacity then order else order[|order| - capacity..]
    }

    /** No more go than must, and those from the front. */
    static lemma NewestMeaning(order: seq<Hash>, capacity: nat)
      ensures |Newest(order, capacity)| == (if |order| <= capacity then |order| else capacity)
      ensures exists gone: seq<Hash> :: gone + Newest(order, capacity) == order
      ensures order != [] ==> (order[|order| - 1] in Newest(order, capacity) <==> capacity > 0 || |order| <= capacity)
    {
      var left := Newest(order, capacity);
      var gone := order[..|order| - |left|];
      assert gone + left == order;
      if left != [] {
        assert left[|left| - 1] == order[|order| - 1];
      }
    }

    /** Evicts Data, oldest use first, until the Content Store is within its capacity. */
    method EvictEntries()
      requires Whole()
      modifies this`contents, this`csMap, this`nCsEntries, this`cached, Repr`csEntry, csReplacement
      ensures Valid()
      ensures csReplacement.order == Newest(old(csReplacement.order), capacity)
      ensures cached == Kept(old(cached), csReplacement.order)
      decreases |csReplacement.order|
    {
      assert Unfold(0);
      if |csReplacement.queue| > capacity {
        KeptMore(cached, csReplacement.order);
        EvictOne();
        EvictEntries();
      } else {
        AllKept();
      }
    }

    lemma KeptMore(c: map<Name, Cached>, order: seq<Hash>)
      requires |order| > capacity
      ensures Newest(order[1..], capacity) == Newest(order, capacity)
      ensures Kept(Kept(c, order[1..]), Newest(order, capacity)) == Kept(c, Newest(order, capacity))
    {
      assert forall h :: h in Newest(order, capacity) ==> h in order[1..];
    }

    lemma AllKept()
      requires CsPart() && LruPart()
      ensures Kept(cached, csReplacement.order) == cached
    {
      forall n | n in cached ensures IndexOf(nameHash, n) in csReplacement.order {
        assert InMap(n);
        assert IndexOf(nameHash, n) in Indices(csReplacement.order);
      }
    }

    /** Caches a Data packet: the entry of its name is refreshed, or a new one is made and old ones
        are evicted while there is no room. It gets stale when its freshness period is over. */
    method InsertData(data: Data, now: int)
      requires Valid() && Spelled(components, data.name) && data.name in dataNames
      modifies this`nodes, this`contents, this`Repr, this`csMap, this`nCsEntries, this`cached, this`csRepr
      modifies Repr`children, Repr`csEntry, csRepr, csReplacement
      ensures Valid() && Grown() && CsGrown()
      ensures data.name in old(cached) ==>
                csReplacement.order == CsLru.Without(old(csReplacement.order), IndexOf(nameHash, data.name))
                    + [IndexOf(nameHash, data.name)]
      ensures data.name !in old(cached) ==>
                csReplacement.order == Newest(old(csReplacement.order) + [IndexOf(nameHash, data.name)], capacity)
      ensures var staleTime := now + (if data.freshness.Some? then data.freshness.value else 0);
              cached == Kept(old(cached)[data.name := Cached(data, staleTime)], csReplacement.order)
    {
      var staleTime := now;
      if data.freshness.Some? {
        staleTime := staleTime + data.freshness.value;
      }
      InsertUntil(data, staleTime);
    }

    method InsertUntil(data: Data, staleTime: int)
      requires Valid() && Spelled(components, data.name) && data.name in dataNames
      modifies this`nodes, this`contents, this`Repr, this`csMap, this`nCsEntries, this`cached, this`csRepr
      modifies Repr`children, Repr`csEntry, csRepr, csReplacement
      ensures Valid() && Grown() && CsGrown()
      ensures data.name in old(cached) ==>
                csReplacement.order == CsLru.Without(old(csReplacement.order), IndexOf(nameHash, data.name))
                    + [IndexOf(nameHash, data.name)]
      ensures data.name !in old(cached) ==>
                csReplacement.order == Newest(old(csReplacement.order) + [IndexOf(nameHash, data.name)], capacity)
      ensures cached == Kept(old(cached)[data.name := Cached(data, staleTime)], csReplacement.order)
    {
      assert Unfold(0);
      var index := IndexOf(nameHash, data.name);
      IndexedName(data.name);
      if index in csMap {
        Refresh(data, staleTime);
      } else {
        AddNew(data, staleTime);
      }
    }

    /** Its index is the last in the order, if there is room for one. */
    lemma KeptIfRoom(name: Name, order: seq<Hash>, others: seq<Hash>)
      requires Valid()
      requires var index := IndexOf(nameHash, name);
               csReplacement.order == others + [index] || csReplacement.order == Newest(order + [index], capacity)
      ensures IndexOf(nameHash, name) in csReplacement.order <==> capacity > 0
    {
      var index := IndexOf(nameHash, name);
      SizesAgree();
      NewestMeaning(order + [index], capacity);
      assert (others + [index])[|others|] == index;
    }

    method Refresh(data: Data, staleTime: int)
      requires Valid() && data.name in cached
      modifies this`cached, csRepr, csReplacement
      ensures Valid() && cached == Kept(old(cached)[data.name := Cached(data, staleTime)], csReplacement.order)
      ensures csReplacement.order == CsLru.Without(old(csReplacement.order), IndexOf(nameHash, data.name))
              + [IndexOf(nameHash, data.name)]
    {
      assert Unfold(0);
      RefreshEntry(data, staleTime);
      assert PitPart() == LruPart() == true;
      UseEntry(data.name);
      assert TreeOk() == PitPart() == CsPart() == true;
      AllKept();
    }

    /** The replacement policy hears of a use of cached Data. */
    method UseEntry(name: Name)
      requires CsPart() && LruPart() && name in cached
      modifies csReplacement
      ensures LruPart()
      ensures csReplacement.order == CsLru.Without(old(csReplacement.order), IndexOf(nameHash, name))
              + [IndexOf(nameHash, name)]
    {
      var index := IndexOf(nameHash, name);
      assert InMap(name) && index in Indices(csReplacement.order);
      UsedLast(csReplacement.order, csReplacement.used, csReplacement.ticks, index);
      WithoutMeaning(csReplacement.order, index);
      csReplacement.MoveToBack(index);
    }

    /** The entry of cached Data takes on the new packet. */
    method RefreshEntry(data: Data, staleTime: int)
      requires TreeOk() && CsPart() && data.name in cached
      modifies this`cached, csRepr
      ensures TreeOk() && CsPart() && cached == old(cached)[data.name := Cached(data, staleTime)]
    {
      CachedWhere(data.name);
      var index := IndexOf(nameHash, data.name);
      EntryPlace(index);
      var entry := csMap[index];
      entry.encData := data;
      entry.staleTime := staleTime;
      cached := cached[data.name := Cached(data, staleTime)];
      forall h ensures Keeps(h) {
        assert old(Keeps(h)) && Indexed(contents, csMap, h);
      }
      forall n ensures InMap(n) {
        assert old(InMap(n));
      }
    }

    /** A new entry for Data that was not cached. */
    method AddNew(data: Data, staleTime: int)
      requires Valid() && Spelled(components, data.name) && data.name in dataNames && data.name !in cached
      modifies this`nodes, this`contents, this`Repr, this`csMap, this`nCsEntries, this`cached, this`csRepr
      modifies Repr`children, Repr`csEntry, csReplacement
      ensures Valid() && Grown() && CsGrown()
      ensures csReplacement.order == Newest(old(csReplacement.order) + [IndexOf(nameHash, data.name)], capacity)
      ensures cached == Kept(old(cached)[data.name := Cached(data, staleTime)], csReplacement.order)
    {
      AddUnevicted(data, staleTime);
      EvictEntries();
    }

    method AddUnevicted(data: Data, staleTime: int)
      requires Whole() && Spelled(components, data.name) && data.name in dataNames && data.name !in cached
      modifies this`nodes, this`contents, this`Repr, this`csMap, this`nCsEntries, this`cached, this`csRepr
      modifies Repr`children, Repr`csEntry, csReplacement
      ensures Whole() && Grown() && CsGrown()
      ensures csReplacement.order == old(csReplacement.order) + [IndexOf(nameHash, data.name)]
      ensures cached == old(cached)[data.name := Cached(data, staleTime)]
    {
      var node := FillWhole(data.name);
      CacheWhole(node, data, staleTime);
      AfterInsert(IndexOf(nameHash, data.name));
    }

    /** Everything is in order, but the replacement policy has not heard of an index yet. */
    ghost predicate WholeBut(index: Hash)
      reads this`nodes, this`contents, this`pit, this`pitTokenMap, this`nPitEntries, this`csMap, this`nCsEntries,
          this`cached
      reads this`Repr, this`csRepr, Repr, csRepr, csReplacement
    {
      forall k {:trigger Unfold(k)} :: Unfold(k) ==>
        && TreeOk() && PitPart() && CsPart() && CollisionFree(nameHash, dataNames) && csReplacement.Valid()
        && index in csMap && Indices(csReplacement.order) == csMap.Keys - {index}
           && |csReplacement.order| == |csMap| - 1
    }

    method CacheWhole(node: PitCsTreeNode, data: Data, staleTime: int)
      requires Whole() && data.name in nodes && node == nodes[data.name] && node in Repr
      requires data.name in dataNames && data.name !in cached
      modifies this`contents, this`csMap, this`nCsEntries, this`cached, this`csRepr, node`csEntry
      ensures WholeBut(IndexOf(nameHash, data.name)) && CsGrown()
      ensures cached == old(cached)[data.name := Cached(data, staleTime)]
    {
      assert Unfold(0);
      IndexedName(data.name);
      CacheAt(node, data, staleTime);
      assert PitPart() == true;
    }

    method FillWhole(name: Name) returns (node: PitCsTreeNode)
      requires Whole() && Spelled(components, name)
      modifies this`nodes, this`contents, this`Repr, Repr`children
      ensures Whole() && Grown() && name in nodes && node == nodes[name] && node in Repr
    {
      assert Unfold(0);
      node := FillTreeToPrefix(name);
      assert PitPart() == CsPart() == LruPart() == true;
    }

    method CacheAt(node: PitCsTreeNode, data: Data, staleTime: int)
      requires TreeOk() && CsPart() && data.name in nodes && node == nodes[data.name]
      requires data.name in dataNames && data.name !in cached && IndexOf(nameHash, data.name) !in csMap
      modifies this`contents, this`csMap, this`nCsEntries, this`cached, this`csRepr, node`csEntry
      ensures TreeOk() && CsPart() && CsGrown()
      ensures csMap.Keys == old(csMap.Keys) + {IndexOf(nameHash, data.name)} && |csMap| == old(|csMap|) + 1
      ensures cached == old(cached)[data.name := Cached(data, staleTime)]
    {
      assert TiedAt(data.name);
      var entry := new CsEntry(node, IndexOf(nameHash, data.name), data, staleTime);
      HangEntry(node, entry);
      Remember(entry, data.name);
    }

    method HangEntry(node: PitCsTreeNode, entry: CsEntry)
      requires TreeOk() && InTree(node) && entry.node == node
      requires entry.index == IndexOf(nameHash, node.path) && entry.index !in csMap
      modifies this`contents, node`csEntry
      ensures TreeFor(pit, csMap[entry.index := entry])
    {
      assert TiedAt(node.path);
      ghost var csMap' := csMap[entry.index := entry];
      StoreCs(node, entry);
      CacheOk(root, nodes, old(contents), hash, components, pit, csMap, nameHash, node.path, entry, contents, csMap');
    }

    method Remember(entry: CsEntry, name: Name)
      requires CsPart() && entry.index !in csMap && name !in cached && name in dataNames
      requires entry.index == IndexOf(nameHash, name) && entry.node.path == name == entry.encData.name
      modifies this`csMap, this`nCsEntries, this`cached, this`csRepr
      ensures CsPart() && csMap == old(csMap)[entry.index := entry] && csRepr == old(csRepr) + {entry}
      ensures cached == old(cached)[name := Cached(entry.encData, entry.staleTime)]
    {
      csMap := csMap[entry.index := entry];
      csRepr := csRepr + {entry};
      nCsEntries := nCsEntries + 1;
      cached := cached[name := Cached(entry.encData, entry.staleTime)];
      forall h ensures Keeps(h) {
        assert old(Keeps(h));
      }
      forall n ensures InMap(n) {
        assert old(InMap(n));
      }
    }

    method AfterInsert(index: Hash)
      requires WholeBut(index)
      modifies csReplacement
      ensures Whole() && csReplacement.order == old(csReplacement.order) + [index]
    {
      assert Unfold(0);
      UsedLast(csReplacement.order, csReplacement.used, csReplacement.ticks, index);
      assert index !in Indices(csReplacement.order);
      csReplacement.AfterInsert(index);
      assert TreeOk() == PitPart() == CsPart() == true;
    }

    // ---------- looking up cached Data ----------

    /** The entry is that of cached Data at or below the name, and fresh enough. */
    ghost predicate Found(e: CsEntry, name: Name, mustBeFresh: bool, now: int)
      reads this`cached, this`csMap, this`csRepr, csRepr
    {
      && e in csRepr && e.index in csMap && csMap[e.index] == e
      && e.node.path in cached && e.encData == cached[e.node.path].data && e.staleTime == cached[e.node.path].staleTime
      && IsPrefix(name, e.node.path) && IsFresh(cached[e.node.path], mustBeFresh, now)
    }

    static predicate IsFresh(c: Cached, mustBeFresh: bool, now: int) {
      mustBeFresh ==> now < c.staleTime
    }

    /** No cached Data at or below the name is fresh enough. */
    ghost predicate NoneBelow(name: Name, mustBeFresh: bool, now: int)
      reads this`cached
    {
      forall n :: n in cached && IsPrefix(name, n) ==> !IsFresh(cached[n], mustBeFresh, now)
    }

    /** The cached Data of a node, if it is fresh enough. */
    method OwnData(node: PitCsTreeNode, mustBeFresh: bool, now: int) returns (entry: CsEntry?)
      requires TreeOk() && CsPart() && InTree(node)
      ensures entry != null ==> Found(entry, node.path, mustBeFresh, now) && entry.node.path == node.path
      ensures entry == null <==> (node.path in cached ==> !IsFresh(cached[node.path], mustBeFresh, now))
    {
      var p := node.path;
      assert TiedAt(p);
      if node.csEntry != null {
        CachedHere(p);
        CachedWhere(p);
        if !mustBeFresh || now < node.csEntry.staleTime {
          return node.csEntry;
        }
      } else if p in cached {
        CachedWhere(p);
        assert false;
      }
      entry := null;
    }

    /** Looks for cached Data at the node and below, in any order of children. */
    method FindMatchingDataCsPrefix(node: PitCsTreeNode, mustBeFresh: bool, now: int, ghost bound: nat)
      returns (entry: CsEntry?)
      requires TreeOk() && CsPart() && InTree(node) && forall p :: p in nodes ==> Len(p) <= bound
      ensures entry != null ==> Found(entry, node.path, mustBeFresh, now)
      ensures entry == null ==> NoneBelow(node.path, mustBeFresh, now)
      decreases bound - Len(node.path)
    {
      entry := OwnData(node, mustBeFresh, now);
      if entry != null {
        return;
      }
      assert TiedAt(node.path);
      var rest := node.children.Keys;
      while rest != {}
        invariant rest <= node.children.Keys && entry == null
        invariant forall h :: h in node.children && h !in rest ==> NoneBelow(node.children[h].path, mustBeFresh, now)
        decreases rest
      {
        var h :| h in rest;
        assert KidOk(nodes, contents, hash, node.path, h);
        var child := node.children[h];
        entry := FindMatchingDataCsPrefix(child, mustBeFresh, now, bound);
        if entry != null {
          PrefixStepDown(node.path, child.path, entry.node.path);
          return;
        }
        rest := rest - {h};
      }
      NoneAnywhere(node, mustBeFresh, now);
    }

    lemma PrefixStepDown(p: Name, q: Name, n: Name)
      requires q != Root && q.prefix == p && IsPrefix(q, n)
      ensures IsPrefix(p, n)
    {
      PrefixOfPrefix(n, Len(q), Len(p));
    }

    /** What is not at a node or below a child of it is not below it. */
    lemma NoneAnywhere(node: PitCsTreeNode, mustBeFresh: bool, now: int)
      requires TreeOk() && CsPart() && InTree(node)
      requires node.path in cached ==> !IsFresh(cached[node.path], mustBeFresh, now)
      requires forall h :: h in node.children ==> NoneBelow(node.children[h].path, mustBeFresh, now)
      ensures NoneBelow(node.path, mustBeFresh, now)
    {
      var p := node.path;
      forall n | n in cached && IsPrefix(p, n) && n != p ensures !IsFresh(cached[n], mustBeFresh, now) {
        CachedWhere(n);
        var q := Prefix(n, Len(p) + 1);
        PrefixesOn(root, nodes, contents, hash, components, n, Len(p) + 1);
        NextPrefix(n, Len(p));
        assert TiedAt(p) && Reached(nodes, contents, hash, q) && Hangs(nodes, components, q);
      }
    }

    /** Finds cached Data for an Interest: of its name, or at or below it when that may be a
        prefix. There is some to find exactly when any cached Data would do. */
    method FindMatchingDataFromCs(name: Name, canBePrefix: bool, mustBeFresh: bool, now: int) returns (entry: CsEntry?)
      requires Valid() && Spelled(components, name)
      modifies csReplacement
      ensures Valid()
      ensures entry != null ==> Found(entry, name, mustBeFresh, now) && (canBePrefix || entry.node.path == name)
      ensures entry == null && canBePrefix ==> NoneBelow(name, mustBeFresh, now)
      ensures entry == null && !canBePrefix ==> name in cached ==> !IsFresh(cached[name], mustBeFresh, now)
      ensures csReplacement.order == if entry == null || canBePrefix then old(csReplacement.order)
                else CsLru.Without(old(csReplacement.order), IndexOf(nameHash, name)) + [IndexOf(nameHash, name)]
    {
      assert Unfold(0);
      entry := FindInCs(name, canBePrefix, mustBeFresh, now);
      if entry != null && !canBePrefix {
        BeforeUse(name);
      }
    }

    method BeforeUse(name: Name)
      requires Valid() && name in cached
      modifies csReplacement
      ensures Valid()
      ensures csReplacement.order == CsLru.Without(old(csReplacement.order), IndexOf(nameHash, name))
              + [IndexOf(nameHash, name)]
    {
      assert Unfold(0);
      UseEntry(name);
      assert TreeOk() == PitPart() == CsPart() == true;
    }

    method FindInCs(name: Name, canBePrefix: bool, mustBeFresh: bool, now: int) returns (entry: CsEntry?)
      requires TreeOk() && CsPart() && Spelled(components, name)
      ensures entry != null ==> Found(entry, name, mustBeFresh, now) && (canBePrefix || entry.node.path == name)
      ensures entry == null && canBePrefix ==> NoneBelow(name, mustBeFresh, now)
      ensures entry == null && !canBePrefix ==> name in cached ==> !IsFresh(cached[name], mustBeFresh, now)
    {
      assert TiedAt(Root);
      var node := FindExactMatch(root, name);
      if node == null {
        entry := null;
        forall n | n in cached && IsPrefix(name, n) ensures false {
          CachedWhere(n);
          PrefixesOn(root, nodes, contents, hash, components, n, Len(name));
        }
      } else {
        assert TiedAt(name);
        if canBePrefix {
          entry := FindMatchingDataCsPrefix(node, mustBeFresh, now, Deepest(nodes.Keys));
        } else {
          entry := OwnData(node, mustBeFresh, now);
        }
      }
    }

    // ---------- what all operations keep ----------

    /** The counters count what the lists, the token map, the index map and the order hold. */
    lemma SizesAgree()
      requires Valid()
      ensures nPitEntries == |pit| == |pitTokenMap| == Total(contents, contents.Keys)
      ensures nCsEntries == |csMap| == |csReplacement.order| <= capacity
    {
      assert Unfold(0);
      TotalIsAll(nodes, contents, pit, contents.Keys);
    }

    /** Every node on the way to a pending entry or to cached Data hangs in the tree. */
    lemma PathsKept(k: PitKey, name: Name, j: nat)
      requires Valid()
      ensures k in pit && j <= Len(k.name) ==>
                Prefix(k.name, j) in nodes && k.name in nodes && pit[k] in nodes[k.name].pitEntries
      ensures name in cached && j <= Len(name) ==>
                Prefix(name, j) in nodes && name in nodes && nodes[name].csEntry != null
    {
      assert Unfold(0);
      if k in pit && j <= Len(k.name) {
        assert Listed(contents, pit, k) && TiedAt(k.name);
        PrefixesOn(root, nodes, contents, hash, components, k.name, j);
      }
      if name in cached && j <= Len(name) {
        CachedWhere(name);
        assert TiedAt(name);
        PrefixesOn(root, nodes, contents, hash, components, name, j);
      }
    }
  }

  /** Freshness: what has just been inserted is kept exactly if there is room for any Data. A later
      lookup for its very name then finds it exactly until its freshness period is over, which without
      a period is at once; one that does not ask for fresh Data finds it at any time. */
  method InsertAndFind(table: PitCsTree, data: Data, now: int, mustBeFresh: bool, later: int) returns (entry: CsEntry?)
    requires table.Valid() && Spelled(table.components, data.name) && data.name in table.dataNames && now <= later
    modifies table`nodes, table`contents, table`Repr, table`csMap, table`nCsEntries, table`cached, table`csRepr
    modifies table.Repr`children, table.Repr`csEntry, table.csRepr, table.csReplacement
    ensures table.Valid() && (data.name in table.cached <==> table.capacity > 0)
    ensures entry != null <==>
              table.capacity > 0 && (mustBeFresh ==> data.freshness.Some? && later < now + data.freshness.value)
    ensures entry != null ==> entry.encData == data
  {
    ghost var order := table.csReplacement.order;
    ghost var others := CsLru.Without(order, IndexOf(table.nameHash, data.name));
    table.InsertData(data, now);
    table.KeptIfRoom(data.name, order, others);
    entry := table.FindMatchingDataFromCs(data.name, false, mustBeFresh, later);
  }

  // ---------- what prefix matching finds ----------

  ghost predicate LongestFirst(s: seq<PitEntry>) {
    forall i, j :: 0 <= i < j < |s| ==> Len(s[i].key.name) >= Len(s[j].key.name)
  }

  function Usable(entries: seq<PitEntry>, exact: bool): seq<PitEntry> {
    if entries == [] then []
    else
      var e := entries[|entries| - 1];
      Usable(entries[..|entries| - 1], exact) + (if e.key.canBePrefix || exact then [e] else [])
  }

  /** The usable entries at p and at its prefixes, for Data whose name has n components. */
  function Upward(contents: Contents, p: Name, n: nat): seq<PitEntry> {
    (if p in contents then Usable(contents[p].pitEntries, Len(p) == n) else [])
    + (if p == Root then [] else Upward(contents, p.prefix, n))
  }

  ghost function UpwardFrom(contents: Contents, node: PitCsTreeNode?, n: nat): seq<PitEntry> {
    if node == null then [] else Upward(contents, node.path, n)
  }

  lemma {:induction false} UsableMeaning(entries: seq<PitEntry>, exact: bool)
    requires NoDup(entries)
    ensures forall e :: e in Usable(entries, exact) <==> e in entries && (e.key.canBePrefix || exact)
    ensures NoDup(Usable(entries, exact))
  {
    if entries != [] {
      UsableMeaning(entries[..|entries| - 1], exact);
      assert entries == entries[..|entries| - 1] + [entries[|entries| - 1]];
    }
  }

  /** The list holds exactly the pending entries with such a key, each once, those with the longest
      names first. */
  ghost predicate Picks(pit: Pit, s: seq<PitEntry>, keys: iset<PitKey>) {
    && (forall e :: e in s ==> e.key in pit && pit[e.key] == e && e.key in keys)
    && (forall k :: k in pit && k in keys ==> pit[k] in s)
    && NoDup(s) && LongestFirst(s)
  }

  ghost function Above(n: nat, p: Name): iset<PitKey> {
    iset k: PitKey | IsPrefix(k.name, p) && (k.canBePrefix || Len(k.name) == n)
  }

  /** The pending Interests that Data with this name satisfies. */
  ghost function Satisfied(name: Name): iset<PitKey> {
    iset k: PitKey | IsPrefix(k.name, name) && (k.canBePrefix || k.name == name)
  }

  lemma {:induction false} UpwardMeaning(root: PitCsTreeNode, nodes: Nodes, contents: Contents, hash: Component -> Hash,
                                         components: iset<Component>, pit: Pit, p: Name, n: nat)
    requires Shape(root, nodes, contents, hash, components) && PitOk(nodes, contents, pit) && p in nodes
    ensures Picks(pit, Upward(contents, p, n), Above(n, p))
  {
    assert Hangs(nodes, components, p);
    var here := Usable(contents[p].pitEntries, Len(p) == n);
    HereMeaning(nodes, contents, pit, p, Len(p) == n, here);
    if p != Root {
      UpwardMeaning(root, nodes, contents, hash, components, pit, p.prefix, n);
      var rest := Upward(contents, p.prefix, n);
      assert Upward(contents, p, n) == here + rest;
      forall e | e in rest ensures Len(e.key.name) < Len(p) {
        assert e.key in Above(n, p.prefix);
      }
      var keys := iset k: PitKey | k.name == p && (k.canBePrefix || Len(p) == n);
      assert Above(n, p) == keys + Above(n, p.prefix);
      PicksBoth(pit, here, keys, rest, Above(n, p.prefix), Len(p));
    } else {
      assert Upward(contents, p, n) == here;
    }
  }

  /** First the entries with names of some length, then those with shorter ones. */
  lemma PicksBoth(pit: Pit, s: seq<PitEntry>, keys: iset<PitKey>, t: seq<PitEntry>, keys': iset<PitKey>, n: nat)
    requires Picks(pit, s, keys) && Picks(pit, t, keys')
    requires forall e :: e in s ==> Len(e.key.name) == n
    requires forall e :: e in t ==> Len(e.key.name) < n
    ensures Picks(pit, s + t, keys + keys')
  {
    var both := s + t;
    forall i, j | 0 <= i < j < |both|
      ensures both[i] != both[j] && Len(both[i].key.name) >= Len(both[j].key.name)
    {
      assert i < |s| ==> both[i] in s;
      assert j >= |s| ==> both[j] in t;
      assert j < |s| ==> both[j] in s;
    }
  }

  /** The usable entries of the node at p. */
  lemma HereMeaning(nodes: Nodes, contents: Contents, pit: Pit, p: Name, exact: bool, here: seq<PitEntry>)
    requires PitOk(nodes, contents, pit) && p in contents && here == Usable(contents[p].pitEntries, exact)
    ensures Picks(pit, here, iset k: PitKey | k.name == p && (k.canBePrefix || exact))
    ensures forall e :: e in here ==> e.key.name == p
  {
    assert ListOk(nodes, contents, pit, p);
    UsableMeaning(contents[p].pitEntries, exact);
    forall e | e in here ensures e.key in pit && pit[e.key] == e && e.key.name == p {
      assert LiveAt(nodes, pit, p, e);
    }
    forall k | k in pit && k.name == p ensures pit[k].key == k && pit[k] in contents[p].pitEntries {
      assert Listed(contents, pit, k);
    }
    PickedHere(pit, here, contents[p].pitEntries, p, exact);
  }

  lemma PickedHere(pit: Pit, here: seq<PitEntry>, entries: seq<PitEntry>, p: Name, exact: bool)
    requires NoDup(here) && forall e :: e in here ==> e.key in pit && pit[e.key] == e && e.key.name == p
    requires forall e :: e in here <==> e in entries && (e.key.canBePrefix || exact)
    requires forall k :: k in pit && k.name == p ==> pit[k].key == k && pit[k] in entries
    ensures Picks(pit, here, iset k: PitKey | k.name == p && (k.canBePrefix || exact))
  {
    assert forall i :: 0 <= i < |here| ==> here[i] in here;
  }

  /** The entries on the way from the longest prefix in the tree are all that count. */
  lemma UpwardIsAll(root: PitCsTreeNode, nodes: Nodes, contents: Contents, hash: Component -> Hash,
                    components: iset<Component>, pit: Pit, p: Name, name: Name)
    requires Shape(root, nodes, contents, hash, components) && PitOk(nodes, contents, pit) && p in nodes
    requires IsPrefix(p, name) && (p == name || Prefix(name, Len(p) + 1) !in nodes)
    requires Picks(pit, Upward(contents, p, Len(name)), Above(Len(name), p))
    ensures Picks(pit, Upward(contents, p, Len(name)), Satisfied(name))
  {
    forall k | k in pit ensures k in Above(Len(name), p) <==> k in Satisfied(name) {
      var q := k.name;
      assert Listed(contents, pit, k) && Listed(contents, pit, pit[k].key);
      assert ListOk(nodes, contents, pit, q) && LiveAt(nodes, pit, q, pit[k]);
      assert Prefix(name, Len(name)) == name && Prefix(p, Len(p)) == p;
      if Len(q) <= Len(p) {
        PrefixOfPrefix(name, Len(p), Len(q));
      } else if IsPrefix(q, name) {
        PrefixOfPrefix(name, Len(q), Len(p) + 1);
        PrefixesOn(root, nodes, contents, hash, components, q, Len(p) + 1);
      }
    }
  }

  // ---------- the counter of pending entries ----------

  /** The lengths of the lists of these nodes, added up. */
  ghost function Total(contents: Contents, names: set<Name>): nat
    requires names <= contents.Keys
  {
    if names == {} then 0
    else |contents[Pick(names)].pitEntries| + Total(contents, names - {Pick(names)})
  }

  ghost function KeysAt(pit: Pit, names: set<Name>): set<PitKey> {
    set k | k in pit && k.name in names
  }

  ghost function KeysOf(s: seq<PitEntry>): set<PitKey> {
    set e | e in s :: e.key
  }

  lemma {:induction false} CountKeys(s: seq<PitEntry>)
    requires forall i, j :: 0 <= i < j < |s| ==> s[i].key != s[j].key
    ensures |KeysOf(s)| == |s|
  {
    if s != [] {
      var init, last := s[..|s| - 1], s[|s| - 1];
      CountKeys(init);
      assert s == init + [last];
      assert last.key !in KeysOf(init);
      assert KeysOf(s) == KeysOf(init) + {last.key};
    }
  }

  /** The keys of the pending entries at a name are those of its list. */
  lemma KeysHere(nodes: Nodes, contents: Contents, pit: Pit, p: Name)
    requires PitOk(nodes, contents, pit) && p in contents
    ensures KeysAt(pit, {p}) == KeysOf(contents[p].pitEntries)
    ensures |KeysAt(pit, {p})| == |contents[p].pitEntries|
  {
    var s := contents[p].pitEntries;
    assert ListOk(nodes, contents, pit, p);
    forall e | e in s ensures e.key in KeysAt(pit, {p}) && pit[e.key] == e {
      assert LiveAt(nodes, pit, p, e);
    }
    forall k | k in KeysAt(pit, {p}) ensures k in KeysOf(s) {
      assert Listed(contents, pit, k);
    }
    forall i, j | 0 <= i < j < |s| ensures s[i].key != s[j].key {
      assert s[i] in s && s[j] in s;
    }
    CountKeys(s);
  }

  /** There are as many pending entries as the lists of the nodes hold together. */
  lemma {:induction false} TotalIsAll(nodes: Nodes, contents: Contents, pit: Pit, names: set<Name>)
    requires PitOk(nodes, contents, pit) && names <= contents.Keys
    ensures Total(contents, names) == |KeysAt(pit, names)|
    ensures names == contents.Keys ==> Total(contents, names) == |pit|
  {
    if names != {} {
      var p := Pick(names);
      TotalIsAll(nodes, contents, pit, names - {p});
      KeysHere(nodes, contents, pit, p);
      assert KeysAt(pit, names) == KeysAt(pit, names - {p}) + KeysAt(pit, {p});
    }
    if names == contents.Keys {
      forall k | k in pit ensures k in KeysAt(pit, names) {
        assert Listed(contents, pit, k);
      }
      assert KeysAt(pit, names) == pit.Keys;
    }
  }
}
