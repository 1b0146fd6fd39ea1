/** The RIB in front of the two FIB-Strategy tables. After any run of RIB operations the tree has,
    for every name, the least cost of each face among the name's routes. The hash table has that
    too, unless it has lost the nexthops of the empty name. */
module RibAgreement {
  import opened Names
  import opened FibSpec
  import RibSpec
  import opened Rib
  import opened HashFib
  import opened TreeFib
  import FibAgreement

  method ApplyToRib(rib: RibTable, op: RibSpec.RibOp)
    requires rib.Valid()
    modifies rib, rib.Repr, rib.fib
    ensures rib.Valid() && rib.Now() == RibSpec.Next(old(rib.Now()), op)
    ensures fresh(rib.Repr - old(rib.Repr))
  {
    match op
    case RibAdd(n, r) => rib.AddRoute(n, r);
    case RibRemove(n, f, o) => rib.RemoveRoute(n, f, o);
    case RibCleanUp(f) => rib.CleanUp(f);
  }

  method RunRib(rib: RibTable, ops: seq<RibSpec.RibOp>)
    requires rib.Valid()
    modifies rib, rib.Repr, rib.fib
    ensures rib.Valid() && rib.Now() == RibSpec.Follow(old(rib.Now()), ops)
    ensures fresh(rib.Repr - old(rib.Repr))
  {
    if ops != [] {
      RunRib(rib, ops[..|ops| - 1]);
      ApplyToRib(rib, ops[|ops| - 1]);
    }
  }

  // ---------- the calls on either table ----------

  /** A call on both. Without a name the hash table takes the empty one, and the tree does nothing. */
  method ApplyCall(table: FibStrategyHashTable, tree: FibStrategyTree, call: Call)
    requires table.Valid() && tree.Valid() && table !in tree.Repr
    requires call.Named? ==> call.op.name in table.universe
    requires Root in table.universe
    modifies table, tree.Repr
    ensures table.Valid() && tree.Valid() && tree.Grown()
    ensures table.view == RunCalls(old(table.view), [call], true)
    ensures tree.view == RunCalls(old(tree.view), [call], false)
  {
    assert [call][..0] == [];
    match call
    case Named(op) => FibAgreement.ApplyBoth(table, tree, op);
    case ClearNil => ClearNone(table, tree);
  }

  method ClearNone(table: FibStrategyHashTable, tree: FibStrategyTree)
    requires table.Valid() && tree.Valid() && table !in tree.Repr && Root in table.universe
    modifies table, tree.Repr
    ensures table.Valid() && tree.Valid() && tree.Grown()
    ensures table.view == FibSpec.ClearNextHops(old(table.view), Root) && tree.view == old(tree.view)
  {
    table.ClearNextHops(Root);
    assert tree.Valid() == true;
    tree.ClearNextHops(None);
    assert table.Valid() == true;
  }

  method Replay(table: FibStrategyHashTable, tree: FibStrategyTree, calls: seq<Call>)
    requires table.Valid() && tree.Valid() && table !in tree.Repr
    requires forall call :: call in calls && call.Named? ==> call.op.name in table.universe
    requires Root in table.universe
    modifies table, tree.Repr
    ensures table.Valid() && tree.Valid() && tree.Grown()
    ensures table.view == RunCalls(old(table.view), calls, true)
    ensures tree.view == RunCalls(old(tree.view), calls, false)
  {
    if calls != [] {
      var init, last := calls[..|calls| - 1], calls[|calls| - 1];
      Replay(table, tree, init);
      CallMore(old(table.view), init, last, true);
      CallMore(old(tree.view), init, last, false);
      assert init + [last] == calls;
      ApplyCall(table, tree, last);
    }
  }

  /** The calls that the RIB made leave in the tree the nexthops that its routes flatten to. In the
      hash table they do so exactly if there was no call for a nameless entry since the last update of
      the empty name, or the empty name has no routes. */
  method DriveTables(rib: RibTable, table: FibStrategyHashTable, tree: FibStrategyTree)
    requires rib.Valid() && table.Valid() && tree.Valid()
    requires table !in tree.Repr && rib !in tree.Repr && rib.fib !in tree.Repr
    requires table.view == tree.view == rib.fib.before
    requires forall call :: call in rib.fib.calls && call.Named? ==> call.op.name in table.universe
    requires Root in table.universe
    modifies table, tree.Repr
    ensures table.Valid() && tree.Valid()
    ensures tree.view.hops == RibSpec.Flatten(rib.view)
    ensures table.view.hops == RibSpec.HashHops(rib.view, rib.Lost())
    ensures table.view.hops == RibSpec.Flatten(rib.view) <==> !(rib.Lost() && Root in rib.view)
  {
    assert rib.FibOk();
    RibSpec.HashHopsRight(rib.view, rib.Lost());
    Replay(table, tree, rib.fib.calls);
  }

  method NewTables(m: nat, hash: Name -> Hash, ghost universe: iset<Name>, defaultStrategy: Name)
    returns (table: FibStrategyHashTable, tree: FibStrategyTree)
    requires 1 <= m && CollisionFree(hash, universe) && Root in universe
    ensures table.Valid() && table.view == Initial(defaultStrategy) && table.universe == universe
    ensures tree.Valid() && tree.view == Initial(defaultStrategy)
    ensures fresh(table) && fresh(tree.Repr) && table !in tree.Repr
  {
    table := new FibStrategyHashTable(m, hash, universe, defaultStrategy);
    tree := new FibStrategyTree(defaultStrategy);
  }

  /** The least cost per face, at the longest prefix of the query among the names. */
  ghost function HopsFor(rib: RibSpec.Rib, names: set<Name>, query: Name): HopMap {
    match LongestMatch(names, query)
    case Some(p) => RibSpec.MinCosts(RibSpec.RoutesAt(rib, p))
    case None => map[]
  }

  lemma HopsFound(fib: Fib, rib: RibSpec.Rib, lost: bool, query: Name)
    requires fib.hops == RibSpec.HashHops(rib, lost)
    ensures FindNextHops(fib, query) == HopsFor(rib, if lost then rib.Keys - {Root} else rib.Keys, query)
  {
    assert fib.hops.Keys == if lost then rib.Keys - {Root} else rib.Keys;
    LongestMatchMeaning(fib.hops.Keys, query, query);
  }

  /** Whatever the RIB went through, the nexthops that the tree gives for a name are those of its
      longest prefix with a route: each face once, with the least cost of its routes. The hash table
      gives the same, but not those of the empty name when it has lost them. */
  method NextHopsFromRoutes(rib: RibTable, m: nat, hash: Name -> Hash, ghost universe: iset<Name>,
                            defaultStrategy: Name, query: Name)
    returns (hops1: seq<NextHop>, hops2: seq<NextHop>)
    requires rib.Valid() && rib.fib.before == Initial(defaultStrategy) && 1 <= m
    requires CollisionFree(hash, universe) && Root in universe && Covers(universe, query)
    requires forall call :: call in rib.fib.calls && call.Named? ==> call.op.name in universe
    ensures Lists(hops1, HopsFor(rib.view, if rib.Lost() then rib.view.Keys - {Root} else rib.view.Keys, query))
    ensures Lists(hops2, HopsFor(rib.view, rib.view.Keys, query))
  {
    var table, tree := NewTables(m, hash, universe, defaultStrategy);
    assert rib.Valid() == true;
    DriveTables(rib, table, tree);
    HopsFound(table.view, rib.view, rib.Lost(), query);
    HopsFound(tree.view, rib.view, false, query);
    hops1 := table.FindNextHops(query);
    hops2 := tree.FindNextHops(query);
  }
}
