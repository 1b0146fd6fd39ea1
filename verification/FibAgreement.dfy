/** The two FIB-Strategy tables answer alike after any common run of operations. */
module FibAgreement {
  import opened Names
  import opened FibSpec
  import opened HashFib
  import opened TreeFib

  method ApplyHash(table: FibStrategyHashTable, op: Op)
    requires table.Valid() && op.name in table.universe
    modifies table
    ensures table.Valid() && table.view == Apply(old(table.view), op)
    ensures old(table.NoneIdle()) && !SetsNone(op) ==> table.NoneIdle()
  {
    match op
    case OpInsert(n, f, c) => table.InsertNextHop(n, f, c);
    case OpClear(n) => table.ClearNextHops(n);
    case OpRemove(n, f) => table.RemoveNextHop(n, f);
    case OpSet(n, s) => table.SetStrategy(n, s);
    case OpUnset(n) => table.UnSetStrategy(n);
  }

  method ApplyTree(tree: FibStrategyTree, op: Op)
    requires tree.Valid()
    modifies tree.Repr
    ensures tree.Valid() && tree.Grown()
    ensures tree.view == Apply(old(tree.view), op)
  {
    match op
    case OpInsert(n, f, c) => tree.InsertNextHop(n, f, c);
    case OpClear(n) => tree.ClearNextHops(Some(n));
    case OpRemove(n, f) => tree.RemoveNextHop(n, f);
    case OpSet(n, s) => tree.SetStrategy(n, s);
    case OpUnset(n) => tree.UnSetStrategy(n);
  }

  /** The operation sets a strategy that is none: the hash table makes an entry even for that. */
  predicate SetsNone(op: Op) {
    op.OpSet? && op.strategy == None
  }

  /** Both tables, driven by the same operations, end up meaning what the flat map does. The real table
      of the hash table then has just the names that the map has something for. */
  method RunBoth(table: FibStrategyHashTable, tree: FibStrategyTree, ops: seq<Op>)
    requires table.Valid() && tree.Valid() && table !in tree.Repr
    requires forall op :: op in ops ==> op.name in table.universe
    modifies table, tree.Repr
    ensures table.Valid() && tree.Valid() && tree.Grown()
    ensures table.view == Run(old(table.view), ops)
    ensures tree.view == Run(old(tree.view), ops)
    ensures old(table.NoneIdle()) && (forall op :: op in ops ==> !SetsNone(op)) ==> table.NoneIdle()
  {
    if ops != [] {
      RunBoth(table, tree, ops[..|ops| - 1]);
      ApplyBoth(table, tree, ops[|ops| - 1]);
    }
  }

  method ApplyBoth(table: FibStrategyHashTable, tree: FibStrategyTree, op: Op)
    requires table.Valid() && tree.Valid() && table !in tree.Repr && op.name in table.universe
    modifies table, tree.Repr
    ensures table.Valid() && tree.Valid() && tree.Grown()
    ensures table.view == Apply(old(table.view), op) && tree.view == Apply(old(tree.view), op)
    ensures old(table.NoneIdle()) && !SetsNone(op) ==> table.NoneIdle()
  {
    ApplyHash(table, op);
    ApplyTree(tree, op);
  }

  /** The answers to any query, after any run from the initial tables: the same strategy and the
      same nexthops, namely those of the flat map, each face once. */
  method SameAnswers(m: nat, hash: Name -> Hash, ghost universe: iset<Name>, defaultStrategy: Name, ops: seq<Op>,
                     query: Name)
    returns (hops1: seq<NextHop>, strategy1: Option<Name>, hops2: seq<NextHop>, strategy2: Option<Name>)
    requires 1 <= m
    requires CollisionFree(hash, universe) && Root in universe && Covers(universe, query)
    requires forall op :: op in ops ==> op.name in universe
    ensures strategy1 == strategy2 == FindStrategy(Run(Initial(defaultStrategy), ops), query)
    ensures Lists(hops1, FindNextHops(Run(Initial(defaultStrategy), ops), query))
    ensures OneHopPerFace(hops1) && OneHopPerFace(hops2)
    ensures forall hop :: hop in hops1 <==> hop in hops2
  {
    var table := new FibStrategyHashTable(m, hash, universe, defaultStrategy);
    var tree := new FibStrategyTree(defaultStrategy);
    RunBoth(table, tree, ops);
    hops1 := table.FindNextHops(query);
    strategy1 := table.FindStrategy(query);
    hops2 := tree.FindNextHops(query);
    strategy2 := tree.FindStrategy(query);
    SameElements(hops1, hops2, FindNextHops(table.view, query));
  }

  /** Two lists of the same map hold the same elements. */
  lemma SameElements(s: seq<NextHop>, t: seq<NextHop>, h: HopMap)
    requires Lists(s, h) && Lists(t, h)
    ensures OneHopPerFace(s) && OneHopPerFace(t)
    ensures forall hop :: hop in s <==> hop in t
  {
    ListsMeaning(s, h);
    ListsMeaning(t, h);
    forall hop ensures hop in s <==> hop in t {
      assert HasFace(s, hop.face) <==> HasFace(t, hop.face);
    }
  }
}
