/** The hash-table FIB-Strategy table: longest-prefix match in two stages with virtual nodes. */
module HashFib {
  import opened Names
  import opened FibSpec

  /** A virtual node: `md` bounds the length of the real names below it. */
  datatype VirtualDetails = VirtualDetails(md: nat)

  // ---------- what the virtual tables record ----------

  /** The virtual node of a name: the hash of its first m components. */
  function VirtualHash(hash: Name -> Hash, m: nat, name: Name): Hash
    requires m <= Len(name)
  {
    hash(Prefix(name, m))
  }

  ghost predicate Recorded(hash: Name -> Hash, m: nat, recorded: Recording, name: Name)
    requires m <= Len(name)
  {
    var v := VirtualHash(hash, m, name);
    v in recorded && name in recorded[v]
  }

  type Recording = map<Hash, map<Name, int>>

  /** Every name of length m or more is listed below its virtual node. */
  ghost predicate AllRecorded(hash: Name -> Hash, m: nat, names: set<Name>, recorded: Recording)
  {
    forall n :: n in names && m <= Len(n) ==> Recorded(hash, m, recorded, n)
  }

  /** What is listed is such a name, with its length, which `md` of the virtual node is no less than. */
  ghost predicate OnlyNames(hash: Name -> Hash, m: nat, names: set<Name>, md: map<Hash, VirtualDetails>,
                            recorded: Recording)
  {
    && recorded.Keys <= md.Keys
    && (forall v, n {:trigger ListedOk(hash, m, names, md, recorded, v, n)} {:trigger n in recorded[v]} ::
          v in recorded && n in recorded[v] ==> ListedOk(hash, m, names, md, recorded, v, n))
  }

  ghost predicate ListedOk(hash: Name -> Hash, m: nat, names: set<Name>, md: map<Hash, VirtualDetails>,
                           recorded: Recording,
                           v: Hash, n: Name)
    requires v in recorded && n in recorded[v] && v in md
  {
    n in names && m <= Len(n) && v == VirtualHash(hash, m, n) && recorded[v][n] == Len(n) <= md[v].md
  }

  ghost predicate NoneEmpty(recorded: Recording)
  {
    forall v :: v in recorded ==> recorded[v] != map[]
  }

  ghost predicate VirtualOk(hash: Name -> Hash, m: nat, names: set<Name>, md: map<Hash, VirtualDetails>,
                            recorded: Recording)
  {
    // an equation, so that it is passed on as a whole
    (AllRecorded(hash, m, names, recorded) && OnlyNames(hash, m, names, md, recorded) && NoneEmpty(recorded)) == true
  }

  /** `md` with the virtual node's bound raised to the length. */
  function Deepen(md: map<Hash, VirtualDetails>, v: Hash, length: nat): map<Hash, VirtualDetails> {
    md[v := VirtualDetails(Max(if v in md then md[v].md else length, length))]
  }

  function ListedAt(recorded: Recording, v: Hash): map<Name, int> {
    if v in recorded then recorded[v] else map[]
  }

  function Record(recorded: Recording, v: Hash, name: Name): Recording {
    recorded[v := ListedAt(recorded, v)[name := Len(name)]]
  }

  function Forget(recorded: Recording, v: Hash, name: Name): Recording {
    var left := ListedAt(recorded, v) - {name};
    if left == map[] then recorded - {v} else recorded[v := left]
  }

  /** The effect of recording a name. */
  lemma RecordAll(hash: Name -> Hash, m: nat, names: set<Name>, recorded: Recording, name: Name)
    requires AllRecorded(hash, m, names, recorded) && m <= Len(name)
    ensures AllRecorded(hash, m, names + {name}, Record(recorded, VirtualHash(hash, m, name), name))
  {
    var recorded' := Record(recorded, VirtualHash(hash, m, name), name);
    forall n | n in names + {name} && m <= Len(n) ensures Recorded(hash, m, recorded', n) {
      if n != name {
        assert Recorded(hash, m, recorded, n);
      }
    }
  }

  lemma RecordOnly(hash: Name -> Hash, m: nat, names: set<Name>, md: map<Hash, VirtualDetails>, recorded: Recording,
                   name: Name)
    requires OnlyNames(hash, m, names, md, recorded) && m <= Len(name)
    ensures var v := VirtualHash(hash, m, name);
            OnlyNames(hash, m, names + {name}, Deepen(md, v, Len(name)), Record(recorded, v, name))
  {
    var v := VirtualHash(hash, m, name);
    var md', recorded' := Deepen(md, v, Len(name)), Record(recorded, v, name);
    var names' := names + {name};
    forall u, n | u in recorded' && n in recorded'[u] ensures ListedOk(hash, m, names', md', recorded', u, n) {
      if u == v && n == name {
        assert recorded'[u][n] == Len(name);
      } else {
        assert ListedOk(hash, m, names, md, recorded, u, n) && recorded'[u][n] == recorded[u][n];
      }
    }
  }

  /** A short name is not recorded. */
  lemma ShortName(hash: Name -> Hash, m: nat, names: set<Name>, md: map<Hash, VirtualDetails>, recorded: Recording,
                  name: Name)
    requires VirtualOk(hash, m, names, md, recorded) && Len(name) < m
    ensures VirtualOk(hash, m, names + {name}, md, recorded) && VirtualOk(hash, m, names - {name}, md, recorded)
  {
    var more, less := names + {name}, names - {name};
    forall n | n in more && m <= Len(n) ensures Recorded(hash, m, recorded, n) {
      assert n in names;
    }
    forall v, n | v in recorded && n in recorded[v]
      ensures ListedOk(hash, m, more, md, recorded, v, n) && ListedOk(hash, m, less, md, recorded, v, n)
    {
      assert ListedOk(hash, m, names, md, recorded, v, n);
    }
  }

  lemma RecordNonempty(recorded: Recording, v: Hash, name: Name)
    requires NoneEmpty(recorded)
    ensures NoneEmpty(Record(recorded, v, name))
  {
    assert name in Record(recorded, v, name)[v];
  }

  /** The effect of forgetting a name. */
  lemma ForgetAll(hash: Name -> Hash, m: nat, names: set<Name>, recorded: Recording, name: Name)
    requires AllRecorded(hash, m, names, recorded) && m <= Len(name)
    ensures AllRecorded(hash, m, names - {name}, Forget(recorded, VirtualHash(hash, m, name), name))
  {
    var v := VirtualHash(hash, m, name);
    forall n | n in names - {name} && m <= Len(n) ensures Recorded(hash, m, Forget(recorded, v, name), n) {
      assert Recorded(hash, m, recorded, n);
      if VirtualHash(hash, m, n) == v {
        assert n in recorded[v] - {name};
      }
    }
  }

  lemma ForgetOnly(hash: Name -> Hash, m: nat, names: set<Name>, md: map<Hash, VirtualDetails>, recorded: Recording,
                   name: Name)
    requires OnlyNames(hash, m, names, md, recorded) && m <= Len(name)
    ensures OnlyNames(hash, m, names - {name}, md, Forget(recorded, VirtualHash(hash, m, name), name))
  {
  }

  // ---------- which names and virtual nodes there are ----------

  /** The names in the real table, and what the virtual tables hold. */
  datatype Tables = Tables(names: set<Name>, virt: map<Hash, VirtualDetails>, listed: Recording)

  function With(hash: Name -> Hash, m: nat, t: Tables, name: Name): Tables {
    if Len(name) < m then t.(names := t.names + {name})
    else
      var v := VirtualHash(hash, m, name);
      Tables(t.names + {name}, Deepen(t.virt, v, Len(name)), Record(t.listed, v, name))
  }

  /** A virtual node goes with the last name listed below it, if its `md` is the length of that. */
  function Without(hash: Name -> Hash, m: nat, t: Tables, name: Name): Tables {
    if Len(name) < m then t.(names := t.names - {name})
    else
      var v := VirtualHash(hash, m, name);
      var listed := Forget(t.listed, v, name);
      var gone := v in t.virt && v !in listed && Len(name) == t.virt[v].md;
      Tables(t.names - {name}, if gone then t.virt - {v} else t.virt, listed)
  }

  /** When the last name below a virtual node is removed, the node is left behind, with nothing listed,
      exactly if that name is shorter than `md`, which a longer name raised before. */
  lemma NodeLeftBehind(hash: Name -> Hash, m: nat, t: Tables, name: Name)
    requires VirtualOk(hash, m, t.names, t.virt, t.listed) && name in t.names && m <= Len(name)
    requires forall n :: n in ListedAt(t.listed, VirtualHash(hash, m, name)) ==> n == name
    ensures var v, t' := VirtualHash(hash, m, name), Without(hash, m, t, name);
            v !in t'.listed && (v in t'.virt <==> Len(name) < t.virt[v].md)
  {
    var v := VirtualHash(hash, m, name);
    assert Recorded(hash, m, t.listed, name);
    assert ListedAt(t.listed, v) - {name} == map[];
  }

  /** A change at one name leaves the entries that hold something, if the name's own one is pruned when
      it holds nothing. */
  lemma NamesAfter(names: set<Name>, view: Fib, view': Fib, name: Name)
    requires names == view.hops.Keys + view.strategies.Keys && name in names
    requires forall n :: n != name ==>
               (n in view'.hops <==> n in view.hops) && (n in view'.strategies <==> n in view.strategies)
    ensures (if name in view'.hops || name in view'.strategies then names else names - {name})
            == view'.hops.Keys + view'.strategies.Keys
  {
  }

  lemma NamesWith(names: set<Name>, view: Fib, view': Fib, name: Name)
    requires names == view.hops.Keys + view.strategies.Keys
    requires forall n :: n != name ==>
               (n in view'.hops <==> n in view.hops) && (n in view'.strategies <==> n in view.strategies)
    ensures names + {name} == view'.hops.Keys + view'.strategies.Keys
            <==> name in view'.hops || name in view'.strategies
  {
    var held := view'.hops.Keys + view'.strategies.Keys;
    assert forall n :: n != name ==> (n in names <==> n in held);
  }

  // ---------- the table ----------

  /** What the real table keeps for a name. */
  datatype FibEntry = FibEntry(name: Name, nexthops: seq<NextHop>, strategy: Option<Name>)

  /** The real table holds each of `names` under its hash, and nothing else. */
  ghost predicate RealOk(hash: Name -> Hash, table: map<Hash, FibEntry>, names: set<Name>)
  {
    (&& (forall h :: h in table ==> table[h].name in names && hash(table[h].name) == h)
     && (forall n :: n in names ==> hash(n) in table && table[hash(n)].name == n)) == true
  }

  ghost predicate EntryOk(e: FibEntry, view: Fib) {
    Lists(e.nexthops, HopsAt(view, e.name)) && e.strategy == StrategyAt(view, e.name)
  }

  /** The real table says about each name what the view says. */
  ghost predicate ViewOk(table: map<Hash, FibEntry>, names: set<Name>, view: Fib)
  {
    (&& WellFormed(view)
     && view.hops.Keys <= names
     && view.strategies.Keys <= names
     && (forall h :: h in table ==> EntryOk(table[h], view))) == true
  }

  /** Changing one name's entry keeps the tables, if the view changes with it. */
  lemma StoreOne(hash: Name -> Hash, table: map<Hash, FibEntry>, names: set<Name>, view: Fib,
                 name: Name, e: FibEntry, table': map<Hash, FibEntry>, view': Fib)
    requires RealOk(hash, table, names) && ViewOk(table, names, view)
    requires name in names && e.name == name && EntryOk(e, view')
    requires table' == table[hash(name) := e]
    requires WellFormed(view') && OnlyAt(view, view', name)
    ensures RealOk(hash, table', names) && ViewOk(table', names, view')
  {
    forall h | h in table' ensures EntryOk(table'[h], view') {
      if h != hash(name) {
        assert table[h].name != name;
        assert EntryOk(table[h], view);
      }
    }
  }

  lemma StoreHops(hash: Name -> Hash, table: map<Hash, FibEntry>, names: set<Name>, view: Fib, name: Name, e: FibEntry,
                  h: HopMap)
    requires RealOk(hash, table, names) && ViewOk(table, names, view)
    requires name in names && e.(nexthops := table[hash(name)].nexthops) == table[hash(name)] && Lists(e.nexthops, h)
    ensures var table' := table[hash(name) := e];
            RealOk(hash, table', names) && ViewOk(table', names, WithHops(view, name, h))
  {
    assert EntryOk(table[hash(name)], view);
    WithHopsMeaning(view, name, h);
    StoreOne(hash, table, names, view, name, e, table[hash(name) := e], WithHops(view, name, h));
  }

  lemma StoreChoice(hash: Name -> Hash, table: map<Hash, FibEntry>, names: set<Name>, view: Fib, name: Name,
                    e: FibEntry)
    requires RealOk(hash, table, names) && ViewOk(table, names, view)
    requires name in names && e.(strategy := table[hash(name)].strategy) == table[hash(name)]
    ensures var table' := table[hash(name) := e];
            RealOk(hash, table', names) && ViewOk(table', names, FibSpec.SetStrategy(view, name, e.strategy))
  {
    assert EntryOk(table[hash(name)], view);
    SetStrategyMeaning(view, name, e.strategy);
    StoreOne(hash, table, names, view, name, e, table[hash(name) := e], FibSpec.SetStrategy(view, name, e.strategy));
  }

  class FibStrategyHashTable {
    const m: nat
    const hash: Name -> Hash
    /** The names in use, among which `hash` has no collision, and its inverse on them. */
    ghost const universe: iset<Name>
    ghost const unhash: Hash -> Name

    var realTable: map<Hash, FibEntry>
    var virtTable: map<Hash, VirtualDetails>
    var virtTableNames: Recording

    /** The names in the real table. */
    ghost var names: set<Name>
    /** What the table means. */
    ghost var view: Fib

    ghost predicate Valid()
      reads this
    {
      && 1 <= m
      && Inverts(unhash, hash, universe)
      && (forall n :: n in names ==> n in universe)
      && RealOk(hash, realTable, names)
      && ViewOk(realTable, names, view)
      && VirtualOk(hash, m, names, virtTable, virtTableNames)
    }

    ghost function Held(): Tables
      reads this
    {
      Tables(names, virtTable, virtTableNames)
    }

    /** Every entry of the real table holds a nexthop or a strategy. */
    ghost predicate NoneIdle()
      reads this
    {
      names == view.hops.Keys + view.strategies.Keys
    }

    constructor (m: nat, hash: Name -> Hash, ghost universe: iset<Name>, defaultStrategy: Name)
      requires 1 <= m
      requires CollisionFree(hash, universe) && Root in universe
      ensures Valid()
      ensures this.hash == hash && this.universe == universe && this.m == m
      ensures view == Initial(defaultStrategy) && Held() == Tables({Root}, map[], map[]) && NoneIdle()
    {
      this.m := m;
      this.hash := hash;
      this.universe := universe;
      this.unhash := Unhash(hash, universe);
      virtTable := map[];
      virtTableNames := map[];
      realTable := map[hash(Root) := FibEntry(Root, [], Some(defaultStrategy))];
      names := {Root};
      view := Initial(defaultStrategy);
    }

    /** The entry of the longest prefix of the name that has one, if any. */
    method FindLongestPrefixMatch(name: Name) returns (entry: Option<FibEntry>)
      requires Valid() && Covers(universe, name)
      ensures entry.Some? ==>
                var e := entry.value;
                Len(e.name) <= Len(name) && e.name == Prefix(name, Len(e.name)) && e.name in names
                    && realTable[hash(e.name)] == e
      ensures forall j :: 0 <= j <= Len(name) && (entry == None || Len(entry.value.name) < j) ==>
              Prefix(name, j) !in names
    {
      var prefixHash := PrefixHash(hash, name);
      if Len(name) <= m {
        entry := Scan(name, prefixHash, Len(name), -1);
        return;
      }
      var virtNameHash := prefixHash[m];
      if virtNameHash in virtTable {
        var virtEntry := virtTable[virtNameHash];
        var pfx := Min(virtEntry.md, Len(name));
        LongerThanMdAbsent(name, pfx);
        entry := Scan(name, prefixHash, pfx, m);
        if entry.Some? {
          return;
        }
      } else {
        LongerThanMdAbsent(name, m);
      }
      entry := Scan(name, prefixHash, m, -1);
    }

    /** One of the counting-down loops: look for prefixes of length `from` down to `above + 1`. */
    method Scan(name: Name, prefixHash: seq<Hash>, from: int, above: int) returns (entry: Option<FibEntry>)
      requires Valid() && Covers(universe, name)
      requires prefixHash == PrefixHash(hash, name)
      requires -1 <= above && from <= Len(name)
      ensures entry.Some? ==>
                var e := entry.value;
                above < Len(e.name) <= from && e.name == Prefix(name, Len(e.name)) && e.name in names
                    && realTable[hash(e.name)] == e
      ensures forall j :: above < j <= from && (entry == None || Len(entry.value.name) < j) ==>
              Prefix(name, j) !in names
    {
      var pfx := from;
      while pfx > above
        invariant pfx <= from && (above <= pfx || pfx == from)
        invariant forall j :: above < j <= from && pfx < j ==> Prefix(name, j) !in names
      {
        if prefixHash[pfx] in realTable {
          assert Prefix(name, pfx) in universe;
          assert realTable[prefixHash[pfx]].name == Prefix(name, pfx);
          return Some(realTable[prefixHash[pfx]]);
        }
        pfx := pfx - 1;
      }
      entry := None;
    }

    /** A real name of length m or more has a virtual node, whose `md` is no less than its length. */
    lemma RealNameBelow(n: Name)
      requires Valid() && n in names && m <= Len(n)
      ensures var v := hash(Prefix(n, m));
              v in virtTable && Len(n) <= virtTable[v].md && v in virtTableNames && n in virtTableNames[v]
    {
      assert Recorded(hash, m, virtTableNames, n);
    }

    /** Why the second stage may start at min(md, |name|): no longer prefix is a real name. */
    lemma LongerThanMdAbsent(name: Name, pfx: nat)
      requires Valid() && Covers(universe, name) && m < Len(name)
      requires pfx == if hash(Prefix(name, m)) in virtTable
                      then Min(virtTable[hash(Prefix(name, m))].md, Len(name)) else m
      ensures forall j :: pfx < j <= Len(name) && m < j ==> Prefix(name, j) !in names
    {
      forall j | pfx < j <= Len(name) && m < j ensures Prefix(name, j) !in names {
        PrefixOfPrefix(name, j, m);
        if Prefix(name, j) in names {
          RealNameBelow(Prefix(name, j));
        }
      }
    }

    /** Makes sure that there is an entry for the name, with the virtual tables up to date. */
    method InsertEntry(name: Name)
      requires Valid() && name in universe
      modifies this
      ensures Valid() && view == old(view) && Held() == With(hash, m, old(Held()), name)
    {
      var prefixHash := PrefixHash(hash, name);
      var nameHash := prefixHash[Len(name)];
      InsertReal(name, nameHash);
      if Len(name) >= m {
        RecordVirtual(name, prefixHash[m]);
      } else {
        ShortName(hash, m, names, virtTable, virtTableNames, name);
      }
      names := names + {name};
    }

    method InsertReal(name: Name, nameHash: Hash)
      requires name in universe && nameHash == hash(name)
      requires Inverts(unhash, hash, universe) && (forall n :: n in names ==> n in universe)
      requires RealOk(hash, realTable, names) && ViewOk(realTable, names, view)
      modifies this`realTable
      ensures RealOk(hash, realTable, names + {name}) && ViewOk(realTable, names + {name}, view)
    {
      if nameHash !in realTable {
        realTable := realTable[nameHash := FibEntry(name, [], None)];
      }
    }

    /** Records a real name below its virtual node. The source writes this twice, for
        Len(name) == m (where the virtual name is the name) and for Len(name) > m. */
    method RecordVirtual(name: Name, virtNameHash: Hash)
      requires VirtualOk(hash, m, names, virtTable, virtTableNames)
      requires m <= Len(name) && virtNameHash == VirtualHash(hash, m, name)
      modifies this`virtTable, this`virtTableNames
      ensures VirtualOk(hash, m, names + {name}, virtTable, virtTableNames)
      ensures virtTable == Deepen(old(virtTable), virtNameHash, Len(name))
      ensures virtTableNames == Record(old(virtTableNames), virtNameHash, name)
    {
      RecordAll(hash, m, names, virtTableNames, name);
      RecordOnly(hash, m, names, virtTable, virtTableNames, name);
      RecordNonempty(virtTableNames, virtNameHash, name);
      StoreVirtual(name, virtNameHash);
    }

    method StoreVirtual(name: Name, virtNameHash: Hash)
      modifies this`virtTable, this`virtTableNames
      ensures virtTable == Deepen(old(virtTable), virtNameHash, Len(name))
      ensures virtTableNames == Record(old(virtTableNames), virtNameHash, name)
    {
      if virtNameHash !in virtTable {
        virtTable := virtTable[virtNameHash := VirtualDetails(Len(name))];
      }
      if virtNameHash !in virtTableNames {
        virtTableNames := virtTableNames[virtNameHash := map[]];
      }
      virtTable := virtTable[virtNameHash := VirtualDetails(Max(virtTable[virtNameHash].md, Len(name)))];
      var listed := virtTableNames[virtNameHash];
      virtTableNames := virtTableNames[virtNameHash := listed[name := Len(name)]];
    }

    /** Removes the name's entry if it holds no nexthop and no strategy, and just then, and what the
        virtual tables then no longer need. The bound `md` is never lowered. */
    method PruneTables(entry: FibEntry)
      requires Valid() && entry.name in names && realTable[hash(entry.name)] == entry
      modifies this
      ensures Valid() && view == old(view)
      ensures entry.nexthops == [] && entry.strategy == None
              <==> entry.name !in view.hops && entry.name !in view.strategies
      ensures Held() == if entry.nexthops == [] && entry.strategy == None then Without(hash, m, old(Held()), entry.name)
                        else old(Held())
    {
      var name := entry.name;
      RealEntry(name);
      if |entry.nexthops| > 0 || entry.strategy.Some? {
        return;
      }
      RemoveName(name);
    }

    method RemoveName(name: Name)
      requires Valid() && name in names && name !in view.hops && name !in view.strategies
      modifies this
      ensures Valid() && view == old(view) && Held() == Without(hash, m, old(Held()), name)
    {
      ghost var left := names - {name};
      ForgetReal(name, left);
      ForgetBelow(name, left);
      names := left;
    }

    // The parts of pruning, one table at a time.

    method ForgetReal(name: Name, ghost left: set<Name>)
      requires name in names && RealOk(hash, realTable, names) && Inverts(unhash, hash, universe)
      requires forall n :: n in names ==> n in universe
      requires ViewOk(realTable, names, view) && name !in view.hops && name !in view.strategies
      requires left == names - {name}
      modifies this`realTable
      ensures RealOk(hash, realTable, left) && ViewOk(realTable, left, view)
    {
      realTable := realTable - {hash(name)};
    }

    method ForgetBelow(name: Name, ghost left: set<Name>)
      requires VirtualOk(hash, m, names, virtTable, virtTableNames) && name in names && left == names - {name}
      modifies this`virtTable, this`virtTableNames
      ensures VirtualOk(hash, m, left, virtTable, virtTableNames)
      ensures Tables(left, virtTable, virtTableNames) == Without(hash, m, old(Held()), name)
    {
      var prefixHash := PrefixHash(hash, name);
      if Len(name) >= m {
        ForgetVirtual(name, prefixHash[m], left);
      } else {
        ShortName(hash, m, names, virtTable, virtTableNames, name);
      }
    }

    method ForgetVirtual(name: Name, virtNameHash: Hash, ghost left: set<Name>)
      requires VirtualOk(hash, m, names, virtTable, virtTableNames)
      requires name in names && m <= Len(name) && virtNameHash == VirtualHash(hash, m, name)
      requires left == names - {name}
      modifies this`virtTable, this`virtTableNames
      ensures VirtualOk(hash, m, left, virtTable, virtTableNames)
      ensures virtTableNames == Forget(old(virtTableNames), virtNameHash, name)
      ensures virtTable == if virtNameHash !in virtTableNames && Len(name) == old(virtTable)[virtNameHash].md
                           then old(virtTable) - {virtNameHash} else old(virtTable)
    {
      assert Recorded(hash, m, virtTableNames, name);
      ForgetAll(hash, m, names, virtTableNames, name);
      ForgetOnly(hash, m, names, virtTable, virtTableNames, name);
      UnstoreVirtual(name, virtNameHash);
    }

    /** The deletions from the virtual tables. Whether the virtual node itself goes depends on
        `md`, which need not be the length of the last name below it. */
    method UnstoreVirtual(name: Name, virtNameHash: Hash)
      requires virtNameHash in virtTable && virtNameHash in virtTableNames && name in virtTableNames[virtNameHash]
      requires OnlyNames(hash, m, names, virtTable, Forget(virtTableNames, virtNameHash, name))
      modifies this`virtTable, this`virtTableNames
      ensures virtTableNames == Forget(old(virtTableNames), virtNameHash, name)
      ensures virtTable == if virtNameHash !in virtTableNames && Len(name) == old(virtTable)[virtNameHash].md
                           then old(virtTable) - {virtNameHash} else old(virtTable)
    {
      UnlistName(name, virtNameHash);
      if virtNameHash in virtTable && Len(name) == virtTable[virtNameHash].md {
        if virtNameHash !in virtTableNames {
          virtTable := virtTable - {virtNameHash};
        } else {
          RaiseToListed(virtNameHash);
        }
      }
    }

    method UnlistName(name: Name, virtNameHash: Hash)
      requires virtNameHash in virtTable && virtNameHash in virtTableNames && name in virtTableNames[virtNameHash]
      modifies this`virtTableNames
      ensures virtTableNames == Forget(old(virtTableNames), virtNameHash, name)
    {
      var namePresent := virtNameHash in virtTableNames && name in virtTableNames[virtNameHash];
      if virtNameHash in virtTable && namePresent {
        var left := virtTableNames[virtNameHash] - {name};
        virtTableNames := virtTableNames[virtNameHash := left];
        if |left| == 0 {
          virtTableNames := virtTableNames - {virtNameHash};
        }
      }
    }

    /** The loop that takes the maximum of `md` and the lengths still listed: it changes nothing,
        because `md` is already an upper bound. */
    method RaiseToListed(virtNameHash: Hash)
      requires virtNameHash in virtTable && virtNameHash in virtTableNames
      requires OnlyNames(hash, m, names, virtTable, virtTableNames)
      modifies this`virtTable
      ensures virtTable == old(virtTable)
    {
      var lengths := virtTableNames[virtNameHash];
      ghost var bound := virtTable[virtNameHash].md;
      forall n | n in lengths ensures lengths[n] <= bound {
        assert virtNameHash in virtTableNames && n in virtTableNames[virtNameHash];
        assert Len(n) <= virtTable[virtNameHash].md;
      }
      var rest := lengths.Keys;
      while rest != {}
        invariant virtTable == old(virtTable) && rest <= lengths.Keys
        decreases rest
      {
        var n :| n in rest;
        rest := rest - {n};
        var virtEntry := virtTable[virtNameHash];
        assert n in lengths;
        virtTable := virtTable[virtNameHash := VirtualDetails(Max(virtEntry.md, lengths[n]))];
      }
    }

    // ---------- the public operations ----------

    /** What the real table's entry for a name says, against the view. */
    lemma RealEntry(p: Name)
      requires Valid() && p in universe
      ensures p in view.hops <==> hash(p) in realTable && realTable[hash(p)].nexthops != []
      ensures p in view.hops ==> Lists(realTable[hash(p)].nexthops, view.hops[p])
      ensures p in view.strategies <==> hash(p) in realTable && realTable[hash(p)].strategy.Some?
      ensures p in view.strategies ==> realTable[hash(p)].strategy == Some(view.strategies[p])
    {
      if hash(p) in realTable {
        assert realTable[hash(p)].name == p;
        ListsEmpty(realTable[hash(p)].nexthops, HopsAt(view, p));
      }
    }

    /** The nexthops of the longest prefix of the name that has any. */
    method FindNextHops(name: Name) returns (hops: seq<NextHop>)
      requires Valid() && Covers(universe, name)
      ensures Lists(hops, FibSpec.FindNextHops(view, name))
    {
      var entry := FindLongestPrefixMatch(name);
      if entry == None {
        LongestMatchFound(view.hops.Keys, name, -1);
        return [];
      }
      hops := FindNextHopsBack(name, Len(entry.value.name));
    }

    /** Its loop: back from the length of the longest match. */
    method FindNextHopsBack(name: Name, from: nat) returns (hops: seq<NextHop>)
      requires Valid() && Covers(universe, name) && from <= Len(name)
      requires forall j :: from < j <= Len(name) ==> Prefix(name, j) !in view.hops
      ensures Lists(hops, FibSpec.FindNextHops(view, name))
    {
      var prefixHash := PrefixHash(hash, name);
      var pfx: int := from;
      while pfx >= 0
        invariant -1 <= pfx <= Len(name)
        invariant forall j :: pfx < j <= Len(name) ==> Prefix(name, j) !in view.hops
        decreases pfx + 1
      {
        RealEntry(Prefix(name, pfx));
        if prefixHash[pfx] in realTable && |realTable[prefixHash[pfx]].nexthops| > 0 {
          LongestMatchFound(view.hops.Keys, name, pfx);
          return realTable[prefixHash[pfx]].nexthops;
        }
        pfx := pfx - 1;
      }
      LongestMatchFound(view.hops.Keys, name, -1);
      hops := [];
    }

    /** The strategy of the longest prefix of the name that has one. */
    method FindStrategy(name: Name) returns (strategy: Option<Name>)
      requires Valid() && Covers(universe, name)
      ensures strategy == FibSpec.FindStrategy(view, name)
    {
      var entry := FindLongestPrefixMatch(name);
      if entry == None {
        LongestMatchFound(view.strategies.Keys, name, -1);
        return None;
      }
      strategy := FindStrategyBack(name, Len(entry.value.name));
    }

    /** Its loop: back from the length of the longest match. */
    method FindStrategyBack(name: Name, from: nat) returns (strategy: Option<Name>)
      requires Valid() && Covers(universe, name) && from <= Len(name)
      requires forall j :: from < j <= Len(name) ==> Prefix(name, j) !in view.strategies
      ensures strategy == FibSpec.FindStrategy(view, name)
    {
      var prefixHash := PrefixHash(hash, name);
      var pfx: int := from;
      while pfx >= 0
        invariant -1 <= pfx <= Len(name)
        invariant forall j :: pfx < j <= Len(name) ==> Prefix(name, j) !in view.strategies
        decreases pfx + 1
      {
        RealEntry(Prefix(name, pfx));
        if prefixHash[pfx] in realTable && realTable[prefixHash[pfx]].strategy.Some? {
          LongestMatchFound(view.strategies.Keys, name, pfx);
          return realTable[prefixHash[pfx]].strategy;
        }
        pfx := pfx - 1;
      }
      LongestMatchFound(view.strategies.Keys, name, -1);
      strategy := None;
    }

    /** Replaces the nexthops of a name that has an entry. */
    method StoreNextHops(name: Name, nexthops: seq<NextHop>, ghost h: HopMap)
      requires Valid() && name in names && Lists(nexthops, h)
      modifies this`realTable, this`view
      ensures Valid() && view == WithHops(old(view), name, h)
      ensures realTable[hash(name)] == old(realTable)[hash(name)].(nexthops := nexthops)
    {
      var e := realTable[hash(name)].(nexthops := nexthops);
      StoreHops(hash, realTable, names, view, name, e, h);
      realTable := realTable[hash(name) := e];
      view := WithHops(view, name, h);
    }

    /** Replaces the strategy of a name that has an entry. */
    method StoreStrategy(name: Name, strategy: Option<Name>)
      requires Valid() && name in names
      modifies this`realTable, this`view
      ensures Valid() && view == FibSpec.SetStrategy(old(view), name, strategy)
      ensures realTable[hash(name)] == old(realTable)[hash(name)].(strategy := strategy)
    {
      var e := realTable[hash(name)].(strategy := strategy);
      StoreChoice(hash, realTable, names, view, name, e);
      realTable := realTable[hash(name) := e];
      view := FibSpec.SetStrategy(view, name, strategy);
    }

    method InsertNextHop(name: Name, nexthop: FaceId, cost: nat)
      requires Valid() && name in universe
      modifies this
      ensures Valid() && view == FibSpec.InsertNextHop(old(view), name, nexthop, cost)
      ensures Held() == With(hash, m, old(Held()), name) && (old(NoneIdle()) ==> NoneIdle())
      ensures Did(old(view), view, OpInsert(name, nexthop, cost)) == true
    {
      ghost var was := view;
      assert WellFormed(was);
      InsertEntry(name);
      ghost var h := HopsAt(view, name);
      var hops := PutHop(realTable[hash(name)].nexthops, nexthop, cost, h);
      assert nexthop in h[nexthop := cost];
      StoreNextHops(name, hops, h[nexthop := cost]);
      if old(NoneIdle()) {
        NamesWith(old(names), old(view), view, name);
      }
      DidInsert(was, view, name, nexthop, cost);
    }

    method ClearNextHops(name: Name)
      requires Valid() && name in universe
      modifies this
      ensures Valid() && view == FibSpec.ClearNextHops(old(view), name)
      ensures Held() == if name in old(names) && name !in view.strategies then Without(hash, m, old(Held()), name)
                        else old(Held())
      ensures old(NoneIdle()) ==> NoneIdle()
      ensures Did(old(view), view, OpClear(name)) == true
    {
      ApplyMeaning(view, OpClear(name));
      if hash(name) in realTable {
        assert realTable[hash(name)].name == name;
        ReplaceNextHops(name, [], map[]);
      } else {
        assert name !in names;
      }
    }

    /** Fewer nexthops for a name, which may leave its entry with nothing. */
    method ReplaceNextHops(name: Name, nexthops: seq<NextHop>, ghost h: HopMap)
      requires Valid() && name in names && Lists(nexthops, h)
      modifies this
      ensures Valid() && view == WithHops(old(view), name, h)
      ensures Held() == if h == map[] && name !in view.strategies then Without(hash, m, old(Held()), name)
                        else old(Held())
      ensures old(NoneIdle()) ==> NoneIdle()
    {
      StoreNextHops(name, nexthops, h);
      PruneTables(realTable[hash(name)]);
      if old(NoneIdle()) {
        NamesAfter(old(names), old(view), view, name);
      }
    }

    method RemoveNextHop(name: Name, nexthop: FaceId)
      requires Valid() && name in universe
      modifies this
      ensures Valid() && view == FibSpec.RemoveNextHop(old(view), name, nexthop)
      ensures Held() == if name in old(view).hops && name !in view.hops && name !in view.strategies
                        then Without(hash, m, old(Held()), name) else old(Held())
      ensures old(NoneIdle()) ==> NoneIdle()
      ensures Did(old(view), view, OpRemove(name, nexthop)) == true
    {
      ApplyMeaning(view, OpRemove(name, nexthop));
      if hash(name) !in realTable {
        assert name !in names;
        return;
      }
      assert realTable[hash(name)].name == name;
      ghost var h := HopsAt(view, name);
      var found, hops := SwapDelete(realTable[hash(name)].nexthops, nexthop, h);
      if found {
        ReplaceNextHops(name, hops, h - {nexthop});
      } else {
        assert view == WithHops(view, name, h);
      }
    }

    /** The loop of RemoveNextHop: the last nexthop takes the place of the one for the face. */
    static method SwapDelete(hops: seq<NextHop>, face: FaceId, ghost h: HopMap)
      returns (found: bool, hops': seq<NextHop>)
      requires Lists(hops, h)
      ensures Lists(hops', h - {face})
      ensures found <==> face in h
      ensures !found ==> h - {face} == h
    {
      var i := FaceIndex(hops, face);
      found := i < |hops|;
      if found {
        ListsSwap(hops, h, i);
        ListsMeaning(hops, h);
        assert HasFace(hops, face);
        var swapped := if |hops| > 1 then hops[i := hops[|hops| - 1]] else hops;
        hops' := swapped[..|hops| - 1];
      } else {
        ListsAbsent(hops, h, face);
        hops' := hops;
      }
    }

    method SetStrategy(name: Name, strategy: Option<Name>)
      requires Valid() && name in universe
      modifies this
      ensures Valid() && view == FibSpec.SetStrategy(old(view), name, strategy)
      ensures Held() == With(hash, m, old(Held()), name)
      ensures old(NoneIdle()) ==> (NoneIdle() <==> strategy.Some? || name in view.hops)
      ensures Did(old(view), view, OpSet(name, strategy)) == true
    {
      ghost var was := view;
      assert WellFormed(was);
      InsertEntry(name);
      StoreStrategy(name, strategy);
      if old(NoneIdle()) {
        NamesWith(old(names), old(view), view, name);
      }
      DidSet(was, view, name, strategy);
    }

    method UnSetStrategy(name: Name)
      requires Valid() && name in universe
      modifies this
      ensures Valid() && view == FibSpec.SetStrategy(old(view), name, None)
      ensures Held() == if name in old(names) && name !in view.hops then Without(hash, m, old(Held()), name)
                        else old(Held())
      ensures old(NoneIdle()) ==> NoneIdle()
      ensures Did(old(view), view, OpUnset(name)) == true
    {
      ghost var was := view;
      assert WellFormed(was);
      if hash(name) in realTable {
        assert realTable[hash(name)].name == name;
        StoreStrategy(name, None);
        PruneTables(realTable[hash(name)]);
        if old(NoneIdle()) {
          NamesAfter(old(names), old(view), view, name);
        }
      } else {
        assert name !in names;
      }
      DidSet(was, view, name, None);
    }
  }

  /** The tables while a longer name and then a shorter one below the same virtual node come and go. */
  lemma ComeAndGo(hash: Name -> Hash, x: Name, y: Name, v: Hash)
    requires x != y && x != Root && y != Root && 1 <= Len(y) < Len(x)
    requires v == VirtualHash(hash, 1, x) == VirtualHash(hash, 1, y)
    ensures var node := map[v := VirtualDetails(Len(x))];
            var t1 := Tables({Root, x}, node, map[v := map[x := Len(x)]]);
            var t2 := Tables({Root, x, y}, node, map[v := map[x := Len(x), y := Len(y)]]);
            var t3 := Tables({Root, y}, node, map[v := map[y := Len(y)]]);
            && With(hash, 1, Tables({Root}, map[], map[]), x) == t1 && With(hash, 1, t1, y) == t2
            && Without(hash, 1, t2, x) == t3 && Without(hash, 1, t3, y) == Tables({Root}, node, map[])
  {
    var both, last: map<Name, int> := map[x := Len(x), y := Len(y)], map[y := Len(y)];
    assert map[x := Len(x)][y := Len(y)] == both;
    assert both - {x} == last && last - {y} == map[];
  }

  lemma HopsComeAndGo(fib: Fib, x: Name, y: Name, face: FaceId)
    requires x != y && x !in fib.hops && y !in fib.hops
    ensures var f1 := FibSpec.InsertNextHop(fib, x, face, 0);
            var f2 := FibSpec.InsertNextHop(f1, y, face, 0);
            var f3 := FibSpec.RemoveNextHop(f2, x, face);
            && x in f2.hops && x !in f3.hops && y in f3.hops && f3.strategies == fib.strategies
            && FibSpec.RemoveNextHop(f3, y, face) == fib
  {
    var hop: HopMap := map[];
    assert hop[face := 0] - {face} == map[];
  }

  /** A virtual node left behind: with virtual names of one component, /a/b/c and /a/b come and go, in
      that order, and the node of /a stays, with the length of /a/b/c and nothing listed below it. */
  method LeaveNodeBehind(hash: Name -> Hash, ghost universe: iset<Name>, defaultStrategy: Name,
                         a: Component, b: Component, c: Component, face: FaceId)
    returns (table: FibStrategyHashTable)
    requires CollisionFree(hash, universe) && Root in universe
    requires Under(Under(Root, a), b) in universe && Under(Under(Under(Root, a), b), c) in universe
    ensures table.Valid() && table.view == Initial(defaultStrategy)
    ensures table.Held() == Tables({Root}, map[hash(Under(Root, a)) := VirtualDetails(3)], map[])
  {
    var x, y := Under(Under(Under(Root, a), b), c), Under(Under(Root, a), b);
    SameVirtual(hash, a, b, c);
    ComeAndGo(hash, x, y, hash(Under(Root, a)));
    HopsComeAndGo(Initial(defaultStrategy), x, y, face);
    table := new FibStrategyHashTable(1, hash, universe, defaultStrategy);
    TwoComeAndGo(table, x, y, face);
  }

  lemma SameVirtual(hash: Name -> Hash, a: Component, b: Component, c: Component)
    ensures var p := Under(Root, a);
            var y := Under(p, b);
            var x := Under(y, c);
            Len(x) == 3 && Len(y) == 2 && VirtualHash(hash, 1, x) == VirtualHash(hash, 1, y) == hash(p)
  {
    var p := Under(Root, a);
    assert Prefix(Under(p, b), 1) == Prefix(p, 1) == p;
  }

  method TwoComeAndGo(table: FibStrategyHashTable, x: Name, y: Name, face: FaceId)
    requires table.Valid() && x in table.universe && y in table.universe
    modifies table
    ensures table.Valid()
    ensures table.view == FibSpec.RemoveNextHop(FibSpec.RemoveNextHop(FibSpec.InsertNextHop(
              FibSpec.InsertNextHop(old(table.view), x, face, 0), y, face, 0), x, face), y, face)
    ensures var t := With(table.hash, table.m, With(table.hash, table.m, old(table.Held()), x), y);
            x != y && x !in old(table.view.hops) && y !in old(table.view.hops)
            && x !in old(table.view.strategies) && y !in old(table.view.strategies) ==>
            table.Held() == Without(table.hash, table.m, Without(table.hash, table.m, t, x), y)
  {
    ghost var fib := table.view;
    if x != y && x !in fib.hops && y !in fib.hops {
      HopsComeAndGo(fib, x, y, face);
    }
    table.InsertNextHop(x, face, 0);
    table.InsertNextHop(y, face, 0);
    table.RemoveNextHop(x, face);
    table.RemoveNextHop(y, face);
  }
}
